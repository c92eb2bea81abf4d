/**
 * `Page::new`: the 8-byte B-tree page header of section 1.6 of the SQLite
 * file format, read from the front of the bytes it is given, and the bytes
 * after it as the page data.
 */
module Page {
  import opened Wrappers
  import opened Bytes
  import opened Helpers

  const PAGE_HEADER_SIZE: nat := 8

  datatype PageHeader = PageHeader(
    pageType: Byte,
    firstFreeBlock: U16,
    numCells: U16,
    startOfCellContentArea: U16,
    numFragFreeBytes: Byte)

  datatype Page = Page(pageNumber: U32, rawData: seq<Byte>, pageHeader: PageHeader, data: seq<Byte>)

  /** `Page::new`. Indexing `raw_data[7]` panics on fewer than eight bytes;
      the panic is `SliceOutOfRange`. Otherwise the bytes are exactly the
      decoded header's eight bytes followed by the data, and the bytes and
      page number are kept. */
  function PageNew(rawData: seq<Byte>, pageNumber: U32): (r: Result<Page, DecodeError>)
    ensures r.Err? <==> |rawData| < PAGE_HEADER_SIZE
    ensures r.Ok? ==>
      r.value.rawData == rawData && r.value.pageNumber == pageNumber
      && rawData == HeaderBytes(r.value.pageHeader) + r.value.data
  {
    if |rawData| < PAGE_HEADER_SIZE then Err(SliceOutOfRange)
    else
      var header := PageHeader(
        rawData[0],
        BE16(rawData[1], rawData[2]),
        BE16(rawData[3], rawData[4]),
        BE16(rawData[5], rawData[6]),
        rawData[7]);
      assert rawData == HeaderBytes(header) + rawData[PAGE_HEADER_SIZE..] by {
        HeaderBytesOfRead(rawData, header);
      }
      Ok(Page(pageNumber, rawData, header, rawData[PAGE_HEADER_SIZE..]))
  }

  /** The header read from the first eight bytes writes back to those
      bytes. */
  lemma HeaderBytesOfRead(rawData: seq<Byte>, h: PageHeader)
    requires |rawData| >= PAGE_HEADER_SIZE
    requires h == PageHeader(rawData[0], BE16(rawData[1], rawData[2]), BE16(rawData[3], rawData[4]),
      BE16(rawData[5], rawData[6]), rawData[7])
    ensures rawData == HeaderBytes(h) + rawData[PAGE_HEADER_SIZE..]
  {
    var r := HeaderBytes(h) + rawData[PAGE_HEADER_SIZE..];
    assert Be16Bytes(h.firstFreeBlock) == [rawData[1], rawData[2]] by {
      BE16Injective(Be16Bytes(h.firstFreeBlock)[0], Be16Bytes(h.firstFreeBlock)[1], rawData[1], rawData[2]);
    }
    assert Be16Bytes(h.numCells) == [rawData[3], rawData[4]] by {
      BE16Injective(Be16Bytes(h.numCells)[0], Be16Bytes(h.numCells)[1], rawData[3], rawData[4]);
    }
    assert Be16Bytes(h.startOfCellContentArea) == [rawData[5], rawData[6]] by {
      BE16Injective(Be16Bytes(h.startOfCellContentArea)[0], Be16Bytes(h.startOfCellContentArea)[1], rawData[5], rawData[6]);
    }
    assert forall i :: 0 <= i < |rawData| ==> r[i] == rawData[i];
  }

  /** The eight header bytes section 1.6 lays out: type, first freeblock,
      cell count, start of the cell content area, fragmented free bytes. */
  function HeaderBytes(h: PageHeader): (r: seq<Byte>)
    ensures |r| == PAGE_HEADER_SIZE
  {
    [h.pageType] + Be16Bytes(h.firstFreeBlock) + Be16Bytes(h.numCells)
    + Be16Bytes(h.startOfCellContentArea) + [h.numFragFreeBytes]
  }

  /** Every header field is read back from its place, the data is what
      follows the header, and the bytes and page number are kept. */
  lemma PageNewReadsHeader(h: PageHeader, data: seq<Byte>, pageNumber: U32)
    ensures PageNew(HeaderBytes(h) + data, pageNumber)
      == Ok(Page(pageNumber, HeaderBytes(h) + data, h, data))
  {
    var raw := HeaderBytes(h) + data;
    var a, b, c := Be16Bytes(h.firstFreeBlock), Be16Bytes(h.numCells), Be16Bytes(h.startOfCellContentArea);
    assert raw[1] == a[0] && raw[2] == a[1] && raw[3] == b[0] && raw[4] == b[1] && raw[5] == c[0] && raw[6] == c[1];
    assert raw[PAGE_HEADER_SIZE..] == data;
  }
}
