/**
 * `BinaryPageReader`: reads the database header (magic string, page size,
 * text encoding) and whole pages of a database file, keeping every page read
 * from the file in `data_cache`, and parses the start of a page's B-tree
 * header. The file is the sequence of its bytes and does not change; a short
 * `read_exact` is `IoError`, indexing past the end of a buffer is the panic
 * `IndexOutOfRange`, and `page_id - 1` on page 0 is the usize underflow
 * panic `PageIdUnderflow`.
 */
module Binary {
  import opened Wrappers
  import opened Bytes
  import Storage
  import Page
  import Database

  /** "SQLite format 3" followed by a zero byte. */
  const SQLITE_HEADER_MAGIC: seq<Byte> :=
    [0x53, 0x51, 0x4C, 0x69, 0x74, 0x65, 0x20, 0x66, 0x6F, 0x72, 0x6D, 0x61, 0x74, 0x20, 0x33, 0x00]
  const SQLITE_ENCODING_UTF8: U32 := 1
  const DEFAULT_PAGE_SIZE: nat := 4096

  datatype ReadError = IoError | InvalidFileFormat | IndexOutOfRange | PageIdUnderflow

  datatype PageData = PageData(
    pageNumber: nat,
    data: seq<Byte>,
    pageType: Storage.PageType,
    cellCount: nat,
    freeOffset: nat)

  /** What a successful `read_header` stores. */
  datatype HeaderSettings = HeaderSettings(pageSize: nat, encoding: U32, headerBytes: seq<Byte>)

  /** The outcome of `read_header` on a file: it accepts exactly the files
      of at least 100 bytes that start with the magic string, keeps those
      100 bytes, and never stores the page size 1. */
  function HeaderOf(file: seq<Byte>): (r: Result<HeaderSettings, ReadError>)
    ensures r.Ok? <==> |file| >= Database.SQLITE_HEADER_SIZE && file[..16] == SQLITE_HEADER_MAGIC
    ensures r == Err(IoError) <==> |file| < Database.SQLITE_HEADER_SIZE
    ensures r.Ok? ==>
      r.value.headerBytes == file[..Database.SQLITE_HEADER_SIZE]
      && r.value.pageSize <= 65536 && r.value.pageSize != 1
  {
    if |file| < Database.SQLITE_HEADER_SIZE then Err(IoError)
    else if file[..16] != SQLITE_HEADER_MAGIC then Err(InvalidFileFormat)
    else Ok(HeaderSettings(
      Database.PageSizeOf(BE16(file[16], file[17])),
      BE32(file[56], file[57], file[58], file[59]),
      file[..Database.SQLITE_HEADER_SIZE]))
  }

  /** Where `get_page` reads page `id` (numbered from 1): at 0 for page 1 and
      at `(id - 1) * page_size` otherwise. */
  function PageOffset(id: nat, pageSize: nat): nat
    requires 0 < id
  {
    if id == 1 then 0 else Database.BlockStart(id - 1, pageSize)
  }

  /** The `page_size` bytes `get_page` reads from the file for page `id`:
      page 0 underflows, a page past the end of the file is a short read. */
  function PageBytes(file: seq<Byte>, id: nat, pageSize: nat): (r: Result<seq<Byte>, ReadError>)
    ensures r == Err(PageIdUnderflow) <==> id == 0
    ensures r == Err(IoError) <==> 0 < id && Database.BlockStart(id - 1, pageSize) + pageSize > |file|
    ensures r.Ok? ==>
      |r.value| == pageSize
      && r.value == file[Database.BlockStart(id - 1, pageSize)..Database.BlockStart(id - 1, pageSize) + pageSize]
  {
    if id == 0 then Err(PageIdUnderflow)
    else if PageOffset(id, pageSize) + pageSize > |file| then Err(IoError)
    else Ok(file[PageOffset(id, pageSize)..PageOffset(id, pageSize) + pageSize])
  }

  /** `parse_page_data` as written: the page type at the header offset (100
      on page 1, 0 elsewhere), then `cell_count` from the next two bytes and
      `free_offset` from the two after, each 0 when the data is too short. */
  function ParsePageData(pageNumber: nat, data: seq<Byte>): (r: Result<PageData, ReadError>)
    ensures r.Err? <==> |data| <= Database.HeaderOffset(pageNumber)
    ensures r.Ok? ==>
      r.value.data == data && r.value.pageNumber == pageNumber
      && r.value.pageType == Storage.FromByte(data[Database.HeaderOffset(pageNumber)])
    ensures var off := Database.HeaderOffset(pageNumber);
      r.Ok? ==>
      (|data| <= off + 3 ==> r.value.cellCount == 0)
      && (|data| > off + 3 ==> r.value.cellCount == BE16(data[off + 1], data[off + 2]))
    ensures var off := Database.HeaderOffset(pageNumber);
      r.Ok? ==>
      (|data| <= off + 5 ==> r.value.freeOffset == 0)
      && (|data| > off + 5 ==> r.value.freeOffset == BE16(data[off + 3], data[off + 4]))
  {
    var off := Database.HeaderOffset(pageNumber);
    if |data| <= off then Err(IndexOutOfRange)
    else
      var cellCount := if |data| > off + 3 then BE16(data[off + 1], data[off + 2]) else 0;
      var freeOffset := if |data| > off + 5 then BE16(data[off + 3], data[off + 4]) else 0;
      Ok(PageData(pageNumber, data, Storage.FromByte(data[off]), cellCount, freeOffset))
  }

  /** The page header fields where section 1.6 of the SQLite file format puts
      them: the first freeblock at offsets 1-2 of the B-tree page header and
      the number of cells at offsets 3-4. */
  function CorrectedParsePageData(pageNumber: nat, data: seq<Byte>): (r: Result<PageData, ReadError>)
    ensures r.Err? <==> |data| <= Database.HeaderOffset(pageNumber)
    ensures r.Ok? ==>
      r.value.data == data && r.value.pageNumber == pageNumber
      && r.value.pageType == Storage.FromByte(data[Database.HeaderOffset(pageNumber)])
  {
    var off := Database.HeaderOffset(pageNumber);
    if |data| <= off then Err(IndexOutOfRange)
    else
      var cellCount := if |data| >= off + 5 then BE16(data[off + 3], data[off + 4]) else 0;
      var freeOffset := if |data| >= off + 3 then BE16(data[off + 1], data[off + 2]) else 0;
      Ok(PageData(pageNumber, data, Storage.FromByte(data[off]), cellCount, freeOffset))
  }

  class BinaryPageReader {
    /** The bytes of the file at `file_path`. */
    const file: seq<Byte>
    var dataCache: map<nat, seq<Byte>>
    var pageSize: nat
    var encoding: U32
    var headerBytes: seq<Byte>
    /** The page size each cached page was read with. */
    ghost var cachedWith: map<nat, nat>

    /** Every cached page holds the bytes of that page of the file, read with
        some page size. */
    ghost predicate Valid()
      reads this
    {
      dataCache.Keys == cachedWith.Keys
      && forall id :: id in dataCache ==> PageBytes(file, id, cachedWith[id]) == Ok(dataCache[id])
    }

    constructor (file: seq<Byte>)
      ensures Valid()
      ensures this.file == file && dataCache == map[]
      ensures pageSize == DEFAULT_PAGE_SIZE && encoding == SQLITE_ENCODING_UTF8 && headerBytes == []
    {
      this.file := file;
      dataCache := map[];
      cachedWith := map[];
      pageSize := DEFAULT_PAGE_SIZE;
      encoding := SQLITE_ENCODING_UTF8;
      headerBytes := [];
    }

    /** `read_header`: on success the page size, header bytes and encoding
        are those of the file's header; on failure nothing changes. */
    method ReadHeader() returns (r: Result<(), ReadError>)
      requires Valid()
      modifies this
      ensures Valid()
      ensures dataCache == old(dataCache)
      ensures match HeaderOf(file)
        case Err(e) => r == Err(e) && unchanged(this)
        case Ok(s) => r == Ok(()) && pageSize == s.pageSize && encoding == s.encoding && headerBytes == s.headerBytes
    {
      if |file| < Database.SQLITE_HEADER_SIZE {
        return Err(IoError);
      }
      var header := file[..Database.SQLITE_HEADER_SIZE];
      if header[0..16] != SQLITE_HEADER_MAGIC {
        return Err(InvalidFileFormat);
      }
      var stored := header[16] * TWO_8 + header[17];
      var adjusted := if stored == 1 then 65536 else stored;
      pageSize := adjusted;
      headerBytes := header;
      encoding := header[56] * TWO_24 + header[57] * TWO_16 + header[58] * TWO_8 + header[59];
      return Ok(());
    }

    /** `get_page`: a cached page is parsed from the cache with nothing
        changed; otherwise the page is read with the current page size,
        cached, and parsed. A failed read changes nothing. */
    method GetPage(pageId: nat) returns (r: Result<PageData, ReadError>)
      requires Valid()
      modifies this
      ensures Valid()
      ensures pageSize == old(pageSize) && encoding == old(encoding) && headerBytes == old(headerBytes)
      ensures pageId in old(dataCache) ==>
        r == ParsePageData(pageId, old(dataCache)[pageId]) && dataCache == old(dataCache)
      ensures pageId !in old(dataCache) ==>
        match PageBytes(file, pageId, old(pageSize))
        case Err(e) => r == Err(e) && dataCache == old(dataCache)
        case Ok(bytes) => r == ParsePageData(pageId, bytes) && dataCache == old(dataCache)[pageId := bytes]
    {
      if pageId in dataCache {
        r := ParsePageData(pageId, dataCache[pageId]);
        return;
      }
      if pageId == 0 {
        return Err(PageIdUnderflow);
      }
      var offset := if pageId == 1 then 0 else Database.BlockStart(pageId - 1, pageSize);
      if offset + pageSize > |file| {
        return Err(IoError);
      }
      var pageData := file[offset..offset + pageSize];
      assert PageBytes(file, pageId, pageSize) == Ok(pageData);
      dataCache := dataCache[pageId := pageData];
      cachedWith := cachedWith[pageId := pageSize];
      forall id | id in dataCache
        ensures PageBytes(file, id, cachedWith[id]) == Ok(dataCache[id])
      {
        if id != pageId {
          assert id in old(dataCache);
        }
      }
      r := ParsePageData(pageId, pageData);
    }
  }

  /** The offset `get_page` uses is `(id - 1) * page_size` for every page,
      page 1 included. */
  lemma PageOffsetUniform(id: nat, pageSize: nat)
    requires 0 < id
    ensures PageOffset(id, pageSize) == (id - 1) * pageSize
  {
  }

  /** On a header laid out as section 1.3 describes, with the magic string in
      front, `read_header` stores the page size the header means and the text
      encoding field, in agreement with `Database::header`. */
  lemma HeaderOfStandard(d: Database.DatabaseHeader, rest: seq<Byte>)
    requires d.headerString == BigEndian(SQLITE_HEADER_MAGIC)
    ensures HeaderOf(Database.StandardHeader(d) + rest)
      == Ok(HeaderSettings(Database.PageSizeOf(d.pageSize), d.textEncoding, Database.StandardHeader(d)))
  {
    var h := Database.StandardHeader(d);
    var file := h + rest;
    BigEndianBound(SQLITE_HEADER_MAGIC);
    Database.FrontReadsBack(d);
    BeBytesBigEndian(SQLITE_HEADER_MAGIC);
    Database.WordReadsBack(d, 8);
    Database.PrefixOfConcat(h, rest);
    assert file[..16] == h[..16] == SQLITE_HEADER_MAGIC;
    assert file[16] == h[16] && file[17] == h[17];
    assert file[56] == h[56] && file[57] == h[57] && file[58] == h[58] && file[59] == h[59];
    assert BE16(file[16], file[17]) == d.pageSize;
    assert BE32(file[56], file[57], file[58], file[59]) == d.textEncoding;
  }

  /** Outside page 0, `get_page` reads the bytes the corrected database page
      reader takes page `id` from, and the two agree on the page header once
      the header offset is skipped. */
  lemma PageBytesAgreeWithDatabase(file: seq<Byte>, id: nat, bytes: seq<Byte>)
    requires 0 < id < TWO_32 && Database.SQLITE_HEADER_SIZE <= |file|
    requires PageBytes(file, id, Database.PageSizeOf(BE16(file[16], file[17]))) == Ok(bytes)
    requires Database.HeaderOffset(id) <= |bytes|
    ensures Database.CorrectedGetPage(file, id) == Database.PageOf(bytes[Database.HeaderOffset(id)..], id)
  {
    Database.PageSizeRead(file);
  }

  /** As written, `cell_count` is the page's first-freeblock field and
      `free_offset` its cell count. */
  lemma ParsePageDataSwapsFields(pageNumber: nat, pre: seq<Byte>, h: Page.PageHeader, rest: seq<Byte>)
    requires |pre| == Database.HeaderOffset(pageNumber)
    ensures ParsePageData(pageNumber, pre + Page.HeaderBytes(h) + rest)
      == Ok(PageData(pageNumber, pre + Page.HeaderBytes(h) + rest, Storage.FromByte(h.pageType), h.firstFreeBlock, h.numCells))
  {
    var data := pre + Page.HeaderBytes(h) + rest;
    var off := |pre|;
    assert data[off..off + 8] == Page.HeaderBytes(h);
  }

  /** The corrected parser reads the page type, the cell count and the first
      freeblock of a section 1.6 page header back. */
  lemma CorrectedParsePageDataReadsHeader(pageNumber: nat, pre: seq<Byte>, h: Page.PageHeader, rest: seq<Byte>)
    requires |pre| == Database.HeaderOffset(pageNumber)
    ensures CorrectedParsePageData(pageNumber, pre + Page.HeaderBytes(h) + rest)
      == Ok(PageData(pageNumber, pre + Page.HeaderBytes(h) + rest, Storage.FromByte(h.pageType), h.numCells, h.firstFreeBlock))
  {
    var data := pre + Page.HeaderBytes(h) + rest;
    var off := |pre|;
    assert data[off..off + 8] == Page.HeaderBytes(h);
  }

  /** A leaf table page (type 0x0D) with no freeblock and three cells, its
      content starting at 0x0FA0: as written it is parsed as a page with no
      cells and a free offset of 3. */
  lemma ParsePageDataMiscounts()
    ensures ParsePageData(2, [0x0D, 0x00, 0x00, 0x00, 0x03, 0x0F, 0xA0, 0x00]).value.cellCount == 0
    ensures ParsePageData(2, [0x0D, 0x00, 0x00, 0x00, 0x03, 0x0F, 0xA0, 0x00]).value.freeOffset == 3
    ensures CorrectedParsePageData(2, [0x0D, 0x00, 0x00, 0x00, 0x03, 0x0F, 0xA0, 0x00]).value.cellCount == 3
  {
  }
}
