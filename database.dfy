/**
 * `Database::header`, `get_schema` and `get_page`: the 100-byte database
 * header of section 1.3 of the SQLite file format and the pages after it.
 * The file is the sequence of its bytes; `read_exact` past its end is the
 * I/O error `ShortRead`, and a slice or index past the end of a buffer is
 * the panic `SliceOutOfRange`.
 */
module Database {
  import opened Wrappers
  import opened Bytes
  import Helpers
  import Page

  const SQLITE_HEADER_SIZE: nat := 100
  const SQLITE_PAGE_HEADER_SIZE: nat := 8

  /** `ShortRead` is the I/O error of `read_exact` past the end of the file,
      `SliceOutOfRange` a panic on a slice or index; `NoPageZero` is returned
      by the corrected page reader only, since page numbers start at 1. */
  datatype DbError = ShortRead | SliceOutOfRange | NoPageZero

  datatype DatabaseHeader = DatabaseHeader(
    headerString: nat,
    pageSize: U16,
    writeFormatVersion: Byte,
    readFormatVersion: Byte,
    reservedSpace: Byte,
    maxEmbeddedPayloadFraction: Byte,
    minEmbeddedPayloadFraction: Byte,
    leafPayloadFraction: Byte,
    fileChangeCounter: U32,
    databaseSize: U32,
    firstFreelistTrunkPage: U32,
    totalFreelistPages: U32,
    schemaCookie: U32,
    schemaFormat: U32,
    defaultPageCacheSize: U32,
    largestRootBTreePageNumber: U32,
    textEncoding: U32,
    userVersion: U32,
    incrementalVacuumMode: U32,
    applicationId: U32,
    versionValidFor: U32,
    sqliteVersionNumber: U32,
    rawData: seq<Byte>)

  datatype SchemaPage = SchemaPage(dbHeader: DatabaseHeader, page: Page.Page)

  /** `u32::from_be_bytes` of the four bytes at `i`. */
  function Be32At(h: seq<Byte>, i: nat): U32
    requires i + 4 <= |h|
  {
    BE32(h[i], h[i + 1], h[i + 2], h[i + 3])
  }

  /** The header fields as `Database::header` extracts them from the 100
      bytes read, with the version-valid-for number and the SQLite version
      number taken at `validForAt` and `versionAt`. */
  function HeaderFields(h: seq<Byte>, validForAt: nat, versionAt: nat): DatabaseHeader
    requires |h| == SQLITE_HEADER_SIZE && validForAt + 4 <= |h| && versionAt + 4 <= |h|
  {
    DatabaseHeader(
      BigEndian(h[..16]),
      BE16(h[16], h[17]),
      h[18], h[19], h[20], h[21], h[22], h[23],
      Be32At(h, 24), Be32At(h, 28), Be32At(h, 32), Be32At(h, 36),
      Be32At(h, 40), Be32At(h, 44), Be32At(h, 48), Be32At(h, 52),
      Be32At(h, 56), Be32At(h, 60), Be32At(h, 64), Be32At(h, 68),
      Be32At(h, validForAt), Be32At(h, versionAt),
      h)
  }

  /** `read_exact` of the first 100 bytes. */
  function HeaderBytesOf(file: seq<Byte>): Result<seq<Byte>, DbError>
  {
    if |file| < SQLITE_HEADER_SIZE then Err(ShortRead) else Ok(file[..SQLITE_HEADER_SIZE])
  }

  /** `Database::header` as written: the last two fields are read at 72 and
      76. It fails exactly on a file shorter than 100 bytes; there is no
      magic-string check, and the page size is taken as stored (a stored 1
      is not turned into 65536). */
  function Header(file: seq<Byte>): (r: Result<DatabaseHeader, DbError>)
    ensures r.Err? <==> |file| < SQLITE_HEADER_SIZE
    ensures r.Err? ==> r.error == ShortRead
    ensures r.Ok? ==> r.value.rawData == file[..SQLITE_HEADER_SIZE] && r.value.pageSize == BE16(file[16], file[17])
  {
    match HeaderBytesOf(file)
    case Err(e) => Err(e)
    case Ok(h) => Ok(HeaderFields(h, 72, 76))
  }

  /** The header with the version-valid-for number and the SQLite version
      number at offsets 92 and 96, where section 1.3 puts them. */
  function CorrectedHeader(file: seq<Byte>): Result<DatabaseHeader, DbError>
  {
    match HeaderBytesOf(file)
    case Err(e) => Err(e)
    case Ok(h) => Ok(HeaderFields(h, 92, 96))
  }

  // ---------------------------------------------------------------------
  // The header as section 1.3 lays it out.

  /** The twelve 32-bit fields stored back to back from offset 24. */
  function Word(d: DatabaseHeader, k: nat): U32
  {
    match k
    case 0 => d.fileChangeCounter
    case 1 => d.databaseSize
    case 2 => d.firstFreelistTrunkPage
    case 3 => d.totalFreelistPages
    case 4 => d.schemaCookie
    case 5 => d.schemaFormat
    case 6 => d.defaultPageCacheSize
    case 7 => d.largestRootBTreePageNumber
    case 8 => d.textEncoding
    case 9 => d.userVersion
    case 10 => d.incrementalVacuumMode
    case _ => d.applicationId
  }

  /** Byte `i` of the header section 1.3 lays out: the 16-byte header string,
      the page size, six single-byte fields, twelve 32-bit fields, twenty
      reserved zero bytes, then the version-valid-for number and the SQLite
      version number. */
  function StandardHeaderByte(d: DatabaseHeader, i: nat): Byte
  {
    if i < 16 then BeBytes(d.headerString, 16)[i]
    else if i < 18 then Be16Bytes(d.pageSize)[i - 16]
    else if i < 24 then
      [d.writeFormatVersion, d.readFormatVersion, d.reservedSpace,
       d.maxEmbeddedPayloadFraction, d.minEmbeddedPayloadFraction, d.leafPayloadFraction][i - 18]
    else if i < 72 then Be32Bytes(Word(d, (i - 24) / 4))[(i - 24) % 4]
    else if i < 92 then 0
    else if i < 96 then Be32Bytes(d.versionValidFor)[i - 92]
    else if i < 100 then Be32Bytes(d.sqliteVersionNumber)[i - 96]
    else 0
  }

  /** The standard header from byte `i` on. */
  function StandardHeaderFrom(d: DatabaseHeader, i: nat): (r: seq<Byte>)
    ensures |r| == if i < SQLITE_HEADER_SIZE then SQLITE_HEADER_SIZE - i else 0
    decreases SQLITE_HEADER_SIZE - i
  {
    if i >= SQLITE_HEADER_SIZE then [] else [StandardHeaderByte(d, i)] + StandardHeaderFrom(d, i + 1)
  }

  function StandardHeader(d: DatabaseHeader): (r: seq<Byte>)
    ensures |r| == SQLITE_HEADER_SIZE
  {
    StandardHeaderFrom(d, 0)
  }

  lemma {:induction false} StandardHeaderFromAt(d: DatabaseHeader, i: nat, j: nat)
    requires i <= j < SQLITE_HEADER_SIZE
    ensures StandardHeaderFrom(d, i)[j - i] == StandardHeaderByte(d, j)
    decreases j - i
  {
    if i < j {
      StandardHeaderFromAt(d, i + 1, j);
    }
  }

  /** Byte `j` of the standard header is the one its layout puts there. */
  lemma StandardHeaderAt(d: DatabaseHeader, j: nat)
    requires j < SQLITE_HEADER_SIZE
    ensures StandardHeader(d)[j] == StandardHeaderByte(d, j)
  {
    StandardHeaderFromAt(d, 0, j);
  }

  /** The header decoded from a standard header, whatever follows it. */
  function Decoded(d: DatabaseHeader): DatabaseHeader
  {
    d.(rawData := StandardHeader(d))
  }

  /** The four bytes at `i` are those of `x`, so the field reads back as `x`. */
  lemma Be32Field(d: DatabaseHeader, i: nat, x: U32)
    requires i + 4 <= SQLITE_HEADER_SIZE
    requires forall j :: 0 <= j < 4 ==> StandardHeaderByte(d, i + j) == Be32Bytes(x)[j]
    ensures Be32At(StandardHeader(d), i) == x
  {
    StandardHeaderAt(d, i);
    StandardHeaderAt(d, i + 1);
    StandardHeaderAt(d, i + 2);
    StandardHeaderAt(d, i + 3);
    assert StandardHeaderByte(d, i + 0) == Be32Bytes(x)[0];
  }

  /** Each 32-bit field at `24 + 4k` of a standard header reads back. */
  lemma WordReadsBack(d: DatabaseHeader, k: nat)
    requires k < 12
    ensures Be32At(StandardHeader(d), 24 + 4 * k) == Word(d, k)
  {
    forall j | 0 <= j < 4
      ensures StandardHeaderByte(d, 24 + 4 * k + j) == Be32Bytes(Word(d, k))[j]
    {
      DivModUnique(4 * k + j, 4, k, j);
    }
    Be32Field(d, 24 + 4 * k, Word(d, k));
  }

  lemma TailWordsReadBack(d: DatabaseHeader)
    ensures Be32At(StandardHeader(d), 92) == d.versionValidFor
    ensures Be32At(StandardHeader(d), 96) == d.sqliteVersionNumber
    ensures Be32At(StandardHeader(d), 72) == 0 && Be32At(StandardHeader(d), 76) == 0
  {
    Be32Field(d, 92, d.versionValidFor);
    Be32Field(d, 96, d.sqliteVersionNumber);
    Be32Field(d, 72, 0);
    Be32Field(d, 76, 0);
  }

  lemma FrontReadsBack(d: DatabaseHeader)
    requires d.headerString < Pow256(16)
    ensures StandardHeader(d)[..16] == BeBytes(d.headerString, 16)
    ensures BigEndian(StandardHeader(d)[..16]) == d.headerString
    ensures BE16(StandardHeader(d)[16], StandardHeader(d)[17]) == d.pageSize
    ensures StandardHeader(d)[18] == d.writeFormatVersion && StandardHeader(d)[19] == d.readFormatVersion
    ensures StandardHeader(d)[20] == d.reservedSpace && StandardHeader(d)[21] == d.maxEmbeddedPayloadFraction
    ensures StandardHeader(d)[22] == d.minEmbeddedPayloadFraction && StandardHeader(d)[23] == d.leafPayloadFraction
  {
    var h := StandardHeader(d);
    forall j | 0 <= j < 16
      ensures h[..16][j] == BeBytes(d.headerString, 16)[j]
    {
      StandardHeaderAt(d, j);
    }
    assert h[..16] == BeBytes(d.headerString, 16);
    BigEndianBeBytes(d.headerString, 16);
    StandardHeaderAt(d, 16);
    StandardHeaderAt(d, 17);
    StandardHeaderAt(d, 18);
    StandardHeaderAt(d, 19);
    StandardHeaderAt(d, 20);
    StandardHeaderAt(d, 21);
    StandardHeaderAt(d, 22);
    StandardHeaderAt(d, 23);
  }

  lemma AllWordsReadBack(d: DatabaseHeader)
    ensures Be32At(StandardHeader(d), 24) == d.fileChangeCounter
    ensures Be32At(StandardHeader(d), 28) == d.databaseSize
    ensures Be32At(StandardHeader(d), 32) == d.firstFreelistTrunkPage
    ensures Be32At(StandardHeader(d), 36) == d.totalFreelistPages
    ensures Be32At(StandardHeader(d), 40) == d.schemaCookie
    ensures Be32At(StandardHeader(d), 44) == d.schemaFormat
    ensures Be32At(StandardHeader(d), 48) == d.defaultPageCacheSize
    ensures Be32At(StandardHeader(d), 52) == d.largestRootBTreePageNumber
    ensures Be32At(StandardHeader(d), 56) == d.textEncoding
    ensures Be32At(StandardHeader(d), 60) == d.userVersion
    ensures Be32At(StandardHeader(d), 64) == d.incrementalVacuumMode
    ensures Be32At(StandardHeader(d), 68) == d.applicationId
  {
    WordReadsBack(d, 0); WordReadsBack(d, 1); WordReadsBack(d, 2); WordReadsBack(d, 3);
    WordReadsBack(d, 4); WordReadsBack(d, 5); WordReadsBack(d, 6); WordReadsBack(d, 7);
    WordReadsBack(d, 8); WordReadsBack(d, 9); WordReadsBack(d, 10); WordReadsBack(d, 11);
  }

  lemma PrefixOfConcat<T>(a: seq<T>, b: seq<T>)
    ensures (a + b)[..|a|] == a
  {
  }

  /** Reading at `validForAt` and `versionAt` gives `d` back when every field
      sits where the reader looks for it. */
  lemma FieldsRead(h: seq<Byte>, validForAt: nat, versionAt: nat, d: DatabaseHeader)
    requires |h| == SQLITE_HEADER_SIZE && validForAt + 4 <= |h| && versionAt + 4 <= |h|
    requires BigEndian(h[..16]) == d.headerString && BE16(h[16], h[17]) == d.pageSize
    requires h[18] == d.writeFormatVersion && h[19] == d.readFormatVersion
    requires h[20] == d.reservedSpace && h[21] == d.maxEmbeddedPayloadFraction
    requires h[22] == d.minEmbeddedPayloadFraction && h[23] == d.leafPayloadFraction
    requires Be32At(h, 24) == d.fileChangeCounter && Be32At(h, 28) == d.databaseSize
    requires Be32At(h, 32) == d.firstFreelistTrunkPage && Be32At(h, 36) == d.totalFreelistPages
    requires Be32At(h, 40) == d.schemaCookie && Be32At(h, 44) == d.schemaFormat
    requires Be32At(h, 48) == d.defaultPageCacheSize && Be32At(h, 52) == d.largestRootBTreePageNumber
    requires Be32At(h, 56) == d.textEncoding && Be32At(h, 60) == d.userVersion
    requires Be32At(h, 64) == d.incrementalVacuumMode && Be32At(h, 68) == d.applicationId
    requires Be32At(h, validForAt) == d.versionValidFor && Be32At(h, versionAt) == d.sqliteVersionNumber
    requires h == d.rawData
    ensures HeaderFields(h, validForAt, versionAt) == d
  {
  }

  /** The corrected reader gives back every field of a standard header, and
      the bytes that follow the header do not matter. */
  lemma CorrectedHeaderRoundTrip(d: DatabaseHeader, rest: seq<Byte>)
    requires d.headerString < Pow256(16)
    ensures CorrectedHeader(StandardHeader(d) + rest) == Ok(Decoded(d))
  {
    var h := StandardHeader(d);
    PrefixOfConcat(h, rest);
    FrontReadsBack(d);
    AllWordsReadBack(d);
    TailWordsReadBack(d);
    FieldsRead(h, 92, 96, Decoded(d));
  }

  /** As written, `Database::header` reads a standard header correctly except
      for its last two fields, which come from the reserved zero bytes. */
  lemma HeaderMisreadsVersionFields(d: DatabaseHeader, rest: seq<Byte>)
    requires d.headerString < Pow256(16)
    ensures Header(StandardHeader(d) + rest) == Ok(Decoded(d).(versionValidFor := 0, sqliteVersionNumber := 0))
  {
    var h := StandardHeader(d);
    PrefixOfConcat(h, rest);
    FrontReadsBack(d);
    AllWordsReadBack(d);
    TailWordsReadBack(d);
    FieldsRead(h, 72, 76, Decoded(d).(versionValidFor := 0, sqliteVersionNumber := 0));
  }

  // ---------------------------------------------------------------------
  // Pages.

  /** `Page::new` panics on fewer than eight bytes; the panic is a
      `SliceOutOfRange` here. */
  function PageOf(raw: seq<Byte>, pageNumber: U32): Result<Page.Page, DbError>
  {
    match Page.PageNew(raw, pageNumber)
    case Ok(p) => Ok(p)
    case Err(_) => Err(SliceOutOfRange)
  }

  /** `read_exact` of `size` bytes at `start`, then `Page::new` of those
      bytes from `skip` on: a short file is `ShortRead`, a skip past the end
      of the buffer is a panic. */
  function ReadPage(file: seq<Byte>, start: nat, size: nat, skip: nat, pageNumber: U32): Result<Page.Page, DbError>
  {
    if start + size > |file| then Err(ShortRead)
    else if size < skip then Err(SliceOutOfRange)
    else PageOf(file[start + skip..start + size], pageNumber)
  }

  lemma MulStep(k: nat, size: nat)
    ensures 0 <= k * size && k * size + size == (k + 1) * size
  {
  }

  /** The offset of the `k`-th block of `size` bytes, counting from 0. */
  function BlockStart(k: nat, size: nat): (r: nat)
    ensures r == k * size && r + size == (k + 1) * size
  {
    MulStep(k, size);
    k * size
  }

  /** `get_page` as written: `page_size` bytes at `page_number * page_size`,
      of which the first eight are dropped before `Page::new`. A file too
      short for the header or for those bytes is `ShortRead`; a page size
      under 16 leaves `Page::new` fewer than eight bytes. */
  function GetPage(file: seq<Byte>, pageNumber: U32): (r: Result<Page.Page, DbError>)
    ensures r.Err? <==>
      |file| < SQLITE_HEADER_SIZE
      || BlockStart(pageNumber, BE16(file[16], file[17])) + BE16(file[16], file[17]) > |file|
      || BE16(file[16], file[17]) < 2 * SQLITE_PAGE_HEADER_SIZE
    ensures r == Err(ShortRead) <==>
      |file| < SQLITE_HEADER_SIZE
      || BlockStart(pageNumber, BE16(file[16], file[17])) + BE16(file[16], file[17]) > |file|
    ensures r.Ok? ==>
      r.value.pageNumber == pageNumber
      && r.value.rawData == file[BlockStart(pageNumber, BE16(file[16], file[17])) + SQLITE_PAGE_HEADER_SIZE
          ..BlockStart(pageNumber, BE16(file[16], file[17])) + BE16(file[16], file[17])]
  {
    match Header(file)
    case Err(e) => Err(e)
    case Ok(h) => ReadPage(file, BlockStart(pageNumber, h.pageSize), h.pageSize, SQLITE_PAGE_HEADER_SIZE, pageNumber)
  }

  /** `get_schema`: the first `page_size` bytes of the file, of which the
      bytes after the 100-byte database header go to `Page::new` as page 1,
      paired with the header read once more. It fails on a short file and
      on a page size too small to hold the database header and a page
      header. */
  function GetSchema(file: seq<Byte>): (r: Result<SchemaPage, DbError>)
    ensures r.Err? <==>
      |file| < SQLITE_HEADER_SIZE || BE16(file[16], file[17]) > |file|
      || BE16(file[16], file[17]) < SQLITE_HEADER_SIZE + SQLITE_PAGE_HEADER_SIZE
    ensures r.Ok? ==>
      Header(file).Ok? && r.value.dbHeader == Header(file).value
      && r.value.page.pageNumber == 1 && r.value.page.rawData == file[SQLITE_HEADER_SIZE..BE16(file[16], file[17])]
  {
    match Header(file)
    case Err(e) => Err(e)
    case Ok(h) =>
      match ReadPage(file, 0, h.pageSize, SQLITE_HEADER_SIZE, 1)
      case Err(e) => Err(e)
      case Ok(p) => Ok(SchemaPage(h, p))
  }

  /** The page size section 1.3 means by a stored value: 1 stands for 65536. */
  function PageSizeOf(stored: U16): (r: nat)
    ensures 0 < stored ==> 0 < r
  {
    if stored == 1 then 65536 else stored
  }

  /** Where the B-tree page header sits inside page `n`: after the database
      header on page 1, at the start on every other page (section 1.6). */
  function HeaderOffset(n: nat): nat
  {
    if n == 1 then SQLITE_HEADER_SIZE else 0
  }

  /** The page reader section 1.6 describes: page `n` (numbered from 1)
      occupies bytes `(n - 1) * page_size` up to `n * page_size`, and
      `Page::new` is given the page from its B-tree header on. */
  function CorrectedGetPage(file: seq<Byte>, pageNumber: U32): Result<Page.Page, DbError>
  {
    if pageNumber == 0 then Err(NoPageZero)
    else match CorrectedHeader(file)
      case Err(e) => Err(e)
      case Ok(h) =>
        var ps := PageSizeOf(h.pageSize);
        ReadPage(file, BlockStart(pageNumber - 1, ps), ps, HeaderOffset(pageNumber), pageNumber)
  }

  /** The stored page size of a file of at least 100 bytes, as both header
      readers give it. */
  lemma PageSizeRead(file: seq<Byte>)
    requires SQLITE_HEADER_SIZE <= |file|
    ensures Header(file).Ok? && Header(file).value.pageSize == BE16(file[16], file[17])
    ensures CorrectedHeader(file).Ok? && CorrectedHeader(file).value.pageSize == BE16(file[16], file[17])
  {
  }

  /** As written, `get_page(n)` reads the bytes of page `n + 1` (numbered from
      1 as section 1.6 does), skips that page's own 8-byte header and takes the
      next eight bytes as the page header. */
  lemma GetPageSkipsPageHeader(file: seq<Byte>, n: U32, ph: Page.PageHeader, rest: seq<Byte>)
    requires SQLITE_HEADER_SIZE <= |file|
    requires BlockStart(n, BE16(file[16], file[17])) + BE16(file[16], file[17]) <= |file|
    requires file[BlockStart(n, BE16(file[16], file[17]))..BlockStart(n, BE16(file[16], file[17])) + BE16(file[16], file[17])]
      == Page.HeaderBytes(ph) + rest
    ensures GetPage(file, n) == PageOf(rest, n)
  {
    PageSizeRead(file);
    var ps := BE16(file[16], file[17]);
    var start := BlockStart(n, ps);
    assert file[start + SQLITE_PAGE_HEADER_SIZE..start + ps] == rest;
  }

  /** The corrected reader finds page `n` where section 1.6 puts it and reads
      its header and cell data back. */
  lemma CorrectedGetPageReadsPage(file: seq<Byte>, n: U32, ph: Page.PageHeader, body: seq<Byte>)
    requires SQLITE_HEADER_SIZE <= |file| && 0 < n
    requires BlockStart(n - 1, PageSizeOf(BE16(file[16], file[17]))) + PageSizeOf(BE16(file[16], file[17])) <= |file|
    requires HeaderOffset(n) <= PageSizeOf(BE16(file[16], file[17]))
    requires file[BlockStart(n - 1, PageSizeOf(BE16(file[16], file[17]))) + HeaderOffset(n)
      ..BlockStart(n - 1, PageSizeOf(BE16(file[16], file[17]))) + PageSizeOf(BE16(file[16], file[17]))]
      == Page.HeaderBytes(ph) + body
    ensures CorrectedGetPage(file, n) == Ok(Page.Page(n, Page.HeaderBytes(ph) + body, ph, body))
  {
    PageSizeRead(file);
    Page.PageNewReadsHeader(ph, body, n);
  }

  /** `get_schema` reads page 1 exactly as the corrected page reader does,
      whenever the stored page size is not the special value 1. */
  lemma GetSchemaIsPageOne(file: seq<Byte>)
    requires GetSchema(file).Ok?
    ensures BE16(file[16], file[17]) != 1 ==> CorrectedGetPage(file, 1) == Ok(GetSchema(file).value.page)
    ensures GetSchema(file).value.dbHeader == Header(file).value
  {
    PageSizeRead(file);
  }
}
