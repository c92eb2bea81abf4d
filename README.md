# WhatQL core in Dafny

WhatQL is a Rust program that reads SQLite database files and carries a
small SQL front end. This project models its deterministic core and proves
properties of that model:

- **On-disk format decoding** (SQLite Database File Format, sections 1.3, 1.6
  and 2.1):
  - the varint decoder and encoder, `encoded_size` and the serial-type tables
    (`VarInt`);
  - the older varint decoder of `helpers.rs` (`Helpers`);
  - the record header and value walk (`Record`);
  - table-leaf cells (`Cell`);
  - the 8-byte page header (`Page`);
  - the 100-byte database header, `get_page` and `get_schema` (`Database`);
  - the binary page reader with its page cache (`Binary`);
  - the page-type byte (`Storage`).
- **In-memory structures:**
  - the LRU page cache with its dirty set (`PageCache`);
  - B-tree node free-space accounting (`Node`);
  - byte-key ordering, fan-out and the leaf iterator (`Traversal`);
  - the schema catalog (`Schema`);
  - the bounded log history (`Logger`);
  - the query validator and the semantic analyzer (`Validator`).
- **Small utilities:**
  - hex encoding and decoding and the 32-bit byte swap (`Utils`);
  - column affinity, storage estimates and column SQL (`Column`);
  - the whitespace tokenizer and keyword classifier (`Lexer`);
  - statement-type classification and query text (`Ast`).

Shared definitions live in `Wrappers` (`Option` and `Result`) and `Bytes`
(bytes and big-endian integers).

Modelling conventions:

- Each Rust file becomes one Dafny module.
- Code that loops or mutates is a `method` or a `class`, proved against a
  function that states what it computes, and that function's properties are
  proved as lemmas.
- A Rust panic is an explicit error constructor, not a precondition. This
  covers a slice out of range, a `usize` underflow, an `unwrap` on `None`
  and an explicit `panic!`.
- The bytes of a file are an input sequence, and a short read is an error.
- Sizes are those of a 64-bit target.

Where the code departs from the file format, the model follows the code. The
corrected behaviour is modelled beside it, and the departure is recorded
under "Findings".

## Model

| member | source | states |
|---|---|---|
| VarInt.Decode | src/engine/storage/varint.rs:13-52 | the loop's result is `Decoded`: an empty slice is an error, a first byte below 128 is its own value, otherwise 7-bit groups up to the first byte below 128, and the ninth byte contributes all 8 bits |
| VarInt.DecodeSingleByte | src/engine/storage/varint.rs:19-24 | a first byte below 128 decodes to itself, one byte used |
| VarInt.DecodeBounds | src/engine/storage/varint.rs:13-52 | any non-empty slice decodes, using 1 to 9 bytes and no more than are there, to a value below 2^64 |
| VarInt.DecodeReadsAtMostNine | src/engine/storage/varint.rs:31 | bytes after the ninth never change the result |
| VarInt.DecodedStopsAt | src/engine/storage/varint.rs:36-43 | with the first byte below 128 at position k < 8, the result is the 7-bit groups of bytes 0..k and k+1 bytes used |
| VarInt.Encode | src/engine/storage/varint.rs:55-80 | the loop's output is `WrittenEncoding(value)`: the flagged low groups pushed first, the high group last, then the whole vector reversed |
| VarInt.WrittenEncodingShape | src/engine/storage/varint.rs:62-75 | the written encoding has one byte per 7-bit group, its first byte has the high bit clear and every later byte has it set, and its 7-bit groups spell the value |
| VarInt.EncodedSize | src/engine/storage/varint.rs:83-95 | the size table gives 1 to 9 bytes |
| VarInt.EncodedSizeMatchesEncode | src/engine/storage/varint.rs:55-95 | below 2^56 the size table is the length of `encode`'s output; above it the table says 9 while `encode` writes 9 or 10 bytes |
| VarInt.GroupCountBounds | src/engine/storage/varint.rs:66-69 | the number of 7-bit groups `encode` writes is the least n with value < 128^n |
| VarInt.WrittenEncodingDoesNotRoundTrip | src/engine/storage/varint.rs:55-80 | for every value from 128 up, decoding what `encode` wrote stops after the first byte and does not give the value back |
| VarInt.WrittenEncodingOf128 | src/engine/storage/varint.rs:55-80 | 128 is written as [0x01, 0x80], which decodes to 1 |
| VarInt.SqliteEncodingRoundTrip | src/engine/storage/varint.rs:13-52 | the standard big-endian varint of every u64 has `encoded_size` bytes and decodes back to the value |
| VarInt.ShortEncodingShape | src/engine/storage/varint.rs:83-88 | below 2^56 the standard encoding has all but its last byte flagged, and values below 128 and below 16384 take 1 and 2 bytes |
| VarInt.RoundTripNineBytes | src/engine/storage/varint.rs:32-34 | a 9-byte encoding is eight flagged 7-bit groups and a full last byte, and decodes back to the value |
| VarInt.ParseColumnHeader | src/engine/storage/varint.rs:105-112 | the type code is below 8 and size*8 + type code is the header value (low 3 bits and the rest) |
| VarInt.SizeForType | src/engine/storage/varint.rs:132-155 | every serial type the file format defines gets the content size the format gives it; the reserved types 10 and 11, and only they, fall to the default arm and get 0 |
| VarInt.SizeForTypeLength | src/engine/storage/varint.rs:143-152 | BLOB type 12+2n and TEXT type 13+2n both give n bytes |
| VarInt.TypeName | src/engine/storage/varint.rs:157-168 | each name is given for exactly its types: NULL for 0, INTEGER for 1-6, REAL for 7, BOOLEAN for 8 and 9, BLOB for even types from 12, TEXT for odd types from 13, UNKNOWN for the reserved 10 and 11; NULL and BOOLEAN types take no bytes |
| Helpers.DecodeSqliteVarint | src/helpers.rs:1-12 | the loop's result is `LegacyDecoded`: the accumulated 7-bit groups (shifted in a u64) and the count up to the first byte below 128, or the "Invalid VARINT" panic |
| Helpers.LegacyFailsIffUnterminated | src/helpers.rs:4-12 | decoding panics exactly when every byte has its high bit set |
| Helpers.LegacyStopsAtFirstTerminator | src/helpers.rs:4-9 | with the first byte below 128 at k, the result is the groups of bytes 0..k and k+1 bytes read |
| Helpers.LegacySingleByte | src/helpers.rs:5-8 | a first byte below 128 is its own value, one byte read |
| Helpers.LegacyIgnoresTrailingBytes | src/helpers.rs:4-9 | bytes after the terminator do not change the result |
| Helpers.AccumulateNoWrap | src/helpers.rs:5 | the u64 shift loses nothing over at most nine bytes |
| Helpers.LegacyAgreesWithVarIntDecode | src/helpers.rs:1-12 | when a byte below 128 occurs among the first eight, `decode_sqlite_varint` and `VarInt::decode` agree |
| Helpers.NinthByteReadDifferently | src/helpers.rs:4-12 | after eight flagged bytes, `VarInt::decode` takes the ninth byte's 8 bits while `decode_sqlite_varint` takes 7 of them, or panics when that byte is flagged too |
| Helpers.VarintAt | src/classes/cell.rs:23 | a varint read from the 9-byte slice at p uses 1 to 9 bytes, and panics on the slice when fewer than 9 bytes remain |
| Storage.FromDiscriminant | src/engine/storage/mod.rs:25-49 | converting a page type's discriminant back with `From<u8>` gives the same page type |
| Storage.FromByte | src/engine/storage/mod.rs:36-49 | a byte maps to a known page type exactly when it is one of 0x02, 0x05, 0x0A, 0x0D, 0xFD, 0xFE, 0xFF, and then it is that type's discriminant; every other byte is Unknown |
| Page.HeaderBytes | src/classes/page.rs:25-32 | the page header occupies 8 bytes |
| Page.PageNewReadsHeader | src/classes/page.rs:25-41 | `Page::new` on a header's 8 big-endian bytes followed by data reads back that header and that data |
| Page.PageNew | src/classes/page.rs:25-41 | `Page::new` panics exactly on fewer than 8 bytes; otherwise the raw bytes and page number are kept and the raw bytes are the decoded header's 8 big-endian bytes followed by the data |
| Cell.CellNew | src/classes/cell.rs:19-37 | the method's result is `CellAt`: the payload-size varint, then the rowid varint, then the record from the offset after both |
| Cell.CellReadsEncodedPrefix | src/classes/cell.rs:19-37 | a cell written as two standard varints followed by a record reads back those two numbers and the record at the offset after them |
| Cell.CellNeedsNineBytes | src/classes/cell.rs:23 | fewer than 9 bytes after the cell offset is a slice panic |
| Cell.CellNeedsNineBytesForRowId | src/classes/cell.rs:26 | fewer than 9 bytes after the payload-size varint is a slice panic |
| Cell.CellErrorSources | src/classes/cell.rs:19-37 | a failed cell failed in one of its two varint reads or in the record decoder, whose error is passed on |
| Cell.CellKeepsContext | src/classes/cell.rs:29-36 | a decoded cell keeps its context and its record is the decoder's result at an offset 1 to 18 bytes past the cell start |
| Record.ReadSerialCodes | src/classes/record.rs:148-153 | the header loop's codes are `HeaderWalk`: one varint per step from each index below `header_size - 1`, advancing by the bytes each used |
| Record.ReadValues | src/classes/record.rs:156-162 | the value loop's result is `ValueWalk`: one `parse_value` per serial code, each starting where the previous one stopped, the first error passed on |
| Record.DataRecordNew | src/classes/record.rs:142-169 | `DataRecord::new` is `RecordAt`: header-size varint, serial codes, values from `offset + header_size - 1`; a slice past the end, a missing terminator or a zero header size is an error |
| Record.SchemaRecordNew | src/classes/record.rs:92-129 | `SchemaRecord::new` succeeds exactly when `DataRecord::new` does, with the same error, and then holds the same header size, codes and values with the placeholder columns (Table, "", "", 0, "") |
| Record.RecordValuesMatchCodes | src/classes/record.rs:142-168 | a decoded record keeps the header's serial codes and has one value per code, value i being `parse_value` of code i at the cursor the earlier values advanced |
| Record.ParseErrorPropagates | src/classes/record.rs:156-162 | when the header reads and value i is the first that fails to parse, that parse error is the record's error |
| Record.ValueWalkValues | src/classes/record.rs:156-161 | a successful value walk gives one value per code, value i parsed from the cursor the earlier values moved, and moves the cursor by the bytes it used |
| Record.ValueWalkFails | src/classes/record.rs:156-162 | the first value that fails to parse stops the walk with that error |
| Record.HeaderWalkReadsHeader | src/classes/record.rs:148-153 | on a header laid out as the file format writes it, the walk over the header bytes after the size varint reads back exactly the serial codes |
| Record.RecordReadsShortHeader | src/classes/record.rs:142-169 | when the header size fits in one byte, a record laid out by the file format decodes to its header size, its codes, and values read from the end of the header |
| Record.LongHeaderMisread | src/classes/record.rs:149-154 | when the header-size varint takes two bytes, the walk reads one byte past the header as an extra serial code and the values start one byte late |
| Record.CorrectedRecordReadsHeader | src/classes/record.rs:142-169 | the corrected decoder (codes read up to `header_size`, values from the end of the header) reads back every record laid out by the file format, whatever its header-size width |
| Database.StandardHeader | src/classes/database.rs:13-37 | the header a database file starts with is 100 bytes long |
| Database.AllWordsReadBack | src/classes/database.rs:62-73 | each of the twelve 32-bit fields from offset 24 to 71 reads back with `u32::from_be_bytes` at its own offset |
| Database.FrontReadsBack | src/classes/database.rs:55-61 | the header string, the big-endian page size and the six single-byte fields at 16..23 read back from a standard header |
| Database.CorrectedHeaderRoundTrip | src/classes/database.rs:48-84 | reading the last two fields at 92 and 96 gives back every field of a standard header, whatever bytes follow it |
| Database.HeaderMisreadsVersionFields | src/classes/database.rs:74-75 | as written, the version-valid-for number and the SQLite version number come from the reserved zero bytes at 72 and 76, so they read as 0 while every other field is right |
| Database.Header | src/classes/database.rs:48-84 | the header read fails, as a short read, exactly on a file shorter than 100 bytes; otherwise it keeps those 100 bytes as raw data and takes the page size as stored at offset 16 |
| Database.GetPage | src/classes/database.rs:103-112 | `get_page(n)` fails with a short read exactly when the header cannot be read or the page_size bytes at `n * page_size` run past the file, fails otherwise only when the page size is below 16, and on success parses the bytes from `n * page_size + 8` to the end of that block as page n |
| Database.PageSizeRead | src/classes/database.rs:55 | both header readers give the page size as the big-endian u16 at 16 |
| Database.GetPageSkipsPageHeader | src/classes/database.rs:103-112 | as written, `get_page(n)` reads the page_size bytes at `n * page_size` and drops their first 8 bytes, so `Page::new` parses the 8 bytes after the page's own B-tree header as the header |
| Database.CorrectedGetPageReadsPage | src/classes/database.rs:103-112 | the corrected reader takes page n (from 1) at `(n - 1) * page_size`, skips the 100-byte database header on page 1 only, and reads back the page's B-tree header and data |
| Database.GetSchemaIsPageOne | src/classes/database.rs:86-101 | `get_schema` parses page 1 after the 100-byte database header, exactly as the corrected page reader does, and pairs it with the header as read |
| Database.GetSchema | src/classes/database.rs:86-101 | `get_schema` fails exactly when the file is shorter than 100 bytes, or the stored page size is larger than the file or too small to hold the database header and a page header; on success it pairs the header as read with page 1 parsed from bytes 100 to page_size |
| Binary.BinaryPageReader.constructor | src/engine/storage/binary.rs:36-44 | a new reader has an empty page cache, page size 4096, UTF-8 encoding and no header bytes |
| Binary.BinaryPageReader.ReadHeader | src/engine/storage/binary.rs:46-83 | on a file of at least 100 bytes starting with the magic string, the page size (1 read as 65536), the encoding at 56 and the header bytes are stored; otherwise the error is returned and nothing changes; the page cache is never touched |
| Binary.BinaryPageReader.GetPage | src/engine/storage/binary.rs:85-114 | a cached page is parsed from the cache and nothing changes; otherwise the page is read at its offset, cached under its id and parsed; a failed read changes nothing |
| Binary.HeaderOf | src/engine/storage/binary.rs:46-77 | the header is accepted exactly when the file has 100 bytes and starts with "SQLite format 3\0", a file shorter than 100 bytes (and only such a file) is an I/O error, and an accepted header keeps the first 100 bytes and a page size of at most 65536 that is never 1 |
| Binary.HeaderOfStandard | src/engine/storage/binary.rs:51-77 | on a standard database header the reader takes the page size as section 1.3 of the file format defines it and the text encoding from offset 56 |
| Binary.PageOffsetUniform | src/engine/storage/binary.rs:98-102 | page n is read from `(n - 1) * page_size`, page 1 included |
| Binary.PageBytesAgreeWithDatabase | src/engine/storage/binary.rs:94-107 | the bytes this reader reads for page n are those the corrected `Database::get_page` parses, once the database header is skipped on page 1 |
| Binary.ParsePageDataSwapsFields | src/engine/storage/binary.rs:116-152 | as written, on a page laid out as section 1.6 of the file format says, the "cell count" is the first-freeblock field and the "free offset" is the cell-count field |
| Binary.ParsePageDataMiscounts | src/engine/storage/binary.rs:130-141 | a leaf page with 3 cells and no freeblock is reported with 0 cells and free offset 3 |
| Binary.CorrectedParsePageDataReadsHeader | src/engine/storage/binary.rs:116-152 | the corrected parser reads the page type, the cell count at +3 and the first freeblock at +1 of every page laid out by section 1.6 |
| Binary.ParsePageData | src/engine/storage/binary.rs:116-152 | parsing panics exactly when the page-type byte (at offset 100 on page 1, 0 elsewhere) is past the data; otherwise the data and page number are kept, the page type is that byte read with `From<u8>`, `cell_count` is the big-endian u16 at +1 when the data is longer than +3 and 0 otherwise, and `free_offset` the one at +3 when the data is longer than +5 and 0 otherwise |
| Binary.PageBytes | src/engine/storage/binary.rs:85-107 | page 0 is an underflow and nothing else is; a page whose block `(id - 1) * page_size .. + page_size` runs past the file is an I/O error; otherwise the result is exactly that block |
| Binary.CorrectedParsePageData | src/engine/storage/binary.rs:116-152 | the corrected parser fails on exactly the same data and keeps the same data, page number and page type |
| PageCache.PageCache.constructor | src/engine/btree/page_cache.rs:19-28 | a new cache is empty with the given capacity and page size, no dirty pages and zero hit and miss counts |
| PageCache.PageCache.Get | src/engine/btree/page_cache.rs:30-52 | a cached page is returned, moved to the back of the LRU order and counted as a hit; any other id returns nothing and counts a miss |
| PageCache.PageCache.Put | src/engine/btree/page_cache.rs:54-79 | the new state is `PutState`: when the cache is full and the id is new, the front of the LRU order is evicted with its dirty entry; then the page is stored, its id pushed at the back, and recorded dirty if asked |
| PageCache.PageCache.MarkDirty | src/engine/btree/page_cache.rs:81-88 | a cached page is recorded dirty; an uncached one is an error and nothing changes |
| PageCache.PageCache.FlushAll | src/engine/btree/page_cache.rs:90-97 | the dirty set is emptied and nothing else changes |
| PageCache.PageCache.Invalidate | src/engine/btree/page_cache.rs:99-106 | the page leaves the cache, the dirty set and the LRU order (its first occurrence) |
| PageCache.RemoveFirstCount | src/engine/btree/page_cache.rs:33-35 | removing the first occurrence of an id from the LRU order removes exactly one copy when there is one and changes nothing otherwise |
| PageCache.GetMovesToBack | src/engine/btree/page_cache.rs:33-36 | a hit keeps the cache, puts the id last in the LRU order and keeps the order's length and contents |
| PageCache.GetKeepsConsistent | src/engine/btree/page_cache.rs:30-52 | a lookup keeps every cached page in the LRU order and every dirty page cached |
| PageCache.PutKeepsConsistent | src/engine/btree/page_cache.rs:54-79 | a store keeps every cached page in the LRU order and every dirty page cached |
| PageCache.InvalidateKeepsConsistent | src/engine/btree/page_cache.rs:99-106 | invalidation keeps every cached page in the LRU order and every dirty page cached |
| PageCache.MarkDirtyAndFlushKeepConsistent | src/engine/btree/page_cache.rs:81-97 | marking and flushing keep the cache consistent, and flushing keeps the cache and the LRU order |
| PageCache.PutExceedsCapacity | src/engine/btree/page_cache.rs:58-71 | with capacity 1, putting page 1 twice and then pages 2 and 3 leaves two pages cached: the repeated id is pushed twice, so one eviction pops a page that is no longer there |
| PageCache.CorrectedPutKeepsCapacity | src/engine/btree/page_cache.rs:54-79 | a store that first removes the id's old position from the LRU order keeps the LRU order duplicate-free and the cache within its capacity |
| Node.BTreeNode.constructor | src/engine/btree/node.rs:86-100 | a new node has no cells, depth 0, the free-block offset `page_size as u16` and a zeroed page of `page_size` bytes |
| Node.BTreeNode.InsertKey | src/engine/btree/node.rs:102-123 | the header becomes `InsertHeader` of the old one; cells and data never change; an error leaves the header unchanged |
| Node.NewNodeFreeSpace | src/engine/btree/node.rs:86-100 | a new node's free space is `page_size mod 65536` minus the 40-byte node header, and computing it panics when that is negative |
| Node.FreeSpaceOf | src/engine/btree/node.rs:125-130 | `free_space` underflows exactly when the free-block offset is below the 40-byte header plus 16 bytes per cell, and otherwise is what remains above them |
| Node.IsFullOf | src/engine/btree/node.rs:132-134 | `is_full` fails where `free_space` does; otherwise it holds exactly when the free space is smaller than the new cell |
| Node.InsertHeader | src/engine/btree/node.rs:102-123 | a non-leaf refuses every insert; a leaf accepts exactly the cells `is_full` says fit, and an accepted insert adds one cell and moves the free-block offset down by the key and value lengths plus 8, keeping type, right child, parent and depth |
| Node.InsertBreaksFreeSpace | src/engine/btree/node.rs:111-130 | on a new 4096-byte leaf, a 4048-byte cell is accepted, after which `free_space` underflows, because the new cell's 16-byte pointer is not counted |
| Node.CorrectedInsertKeepsFreeSpace | src/engine/btree/node.rs:111-130 | an insert that also requires room for the cell pointer leaves the free space defined, smaller by the cell and its pointer |
| Traversal.CompareKeys | src/engine/btree/traversal.rs:141-152 | the loop's result is `LexCompare`: the first differing byte decides, otherwise the shorter key is less |
| Traversal.FirstDifferenceDecides | src/engine/btree/traversal.rs:143-147 | with equal prefixes up to a differing byte, that byte's order is the keys' order |
| Traversal.PrefixIsLess | src/engine/btree/traversal.rs:151 | a proper prefix is less than the longer key |
| Traversal.LexCompare | src/engine/btree/traversal.rs:141-152 | two keys compare Equal exactly when they are the same bytes |
| Traversal.CompareAntisymmetric | src/engine/btree/traversal.rs:141-152 | swapping the keys reverses the ordering |
| Traversal.LessTransitive | src/engine/btree/traversal.rs:141-152 | Less is transitive, so the comparison is a total order on keys |
| Traversal.CalculateFanOut | src/engine/btree/traversal.rs:119-139 | the result is `FanOut`: usable space over 16 for interior nodes and over 32 for leaves, 0 for other node types, and a panic when the data is shorter than the B-tree header |
| Traversal.FanOut | src/engine/btree/traversal.rs:119-136 | on an internal or leaf node the fan-out underflows exactly when the data is shorter than the 12-byte B-tree header, and otherwise is the largest number of typical entries that fit in the rest; every other node type has fan-out 0 |
| Traversal.NewContext | src/engine/btree/traversal.rs:17-25 | a new context is at the root page, which is its whole path, with no comparisons and one node visited |
| Traversal.FindLeftmostLeaf | src/engine/btree/traversal.rs:49-65 | a leaf is returned as it is; an interior node is replaced by a new empty 4096-byte leaf for the same page; any other node type is an error |
| Traversal.BTreeIterator.constructor | src/engine/btree/traversal.rs:41-46 | the struct built from a leaf already found: that leaf held at cell 0, a new traversal context, nothing yielded and the leaf's cell count still to yield |
| Traversal.BTreeIterator.New | src/engine/btree/traversal.rs:37-47 | `new` succeeds exactly for a leaf or internal root, passing on `find_leftmost_leaf`'s error otherwise; a leaf root is held with its own cell count, an internal root gives a fresh leaf with nothing to yield; the iterator starts at cell 0 with a new context and nothing yielded |
| Traversal.BTreeIterator.Next | src/engine/btree/traversal.rs:67-86 | while cells remain, the next cell index's placeholder pair is returned and the index advances; then the leaf is dropped and nothing more is returned, by which point exactly one pair per cell has been yielded, in order |
| Utils.ToHexString | src/utils/mod.rs:79-85 | the loop's result is `ToHex`: two lower-case hex digits per byte, in order |
| Utils.ToHexShape | src/utils/mod.rs:79-85 | the hex string is twice as long as the bytes and holds only the digits 0-9a-f |
| Utils.FromHexString | src/utils/mod.rs:88-99 | the loop's result is `FromHex`: each complete pair from the front parsed by `u8::from_str_radix`, a trailing odd character ignored, the first bad pair an error |
| Utils.HexRoundTrip | src/utils/mod.rs:79-99 | parsing the hex string of any bytes gives those bytes back |
| Utils.TrailingCharIgnored | src/utils/mod.rs:91-92 | a character after an even-length string never changes the result |
| Utils.SignedPairs | src/utils/mod.rs:93 | `from_str_radix` accepts a pair "+f" as 15, rejects "0g", and "ff0" gives [255] |
| Utils.SwapEndianU32 | src/utils/mod.rs:102-107 | byte k of the result is byte 3 - k of the input, for each of the four bytes |
| Utils.SwapInvolution | src/utils/mod.rs:102-107 | swapping twice gives the word back |
| Utils.SwapExample | src/utils/mod.rs:102-107 | 0x11223344 becomes 0x44332211 |
| Column.EstimateStorageSize | src/schema/column.rs:78-87 | between 8 and 100 bytes: 100 exactly for Blob affinity, 32 exactly for Text, and 8 exactly for Integer, Real and Numeric |
| Column.IsIndexable | src/schema/column.rs:90-94 | every column is indexable |
| Column.GetSqlDefinition | src/schema/column.rs:97-113 | the text built by pushing clauses is `SqlDefinition`: "name type", then " PRIMARY KEY", " NOT NULL" and " DEFAULT v" as the flags call for |
| Column.SqlDefinition | src/schema/column.rs:97-113 | the definition is "name type", then " PRIMARY KEY" when the column is a primary key, then " NOT NULL" when it is not nullable, then " DEFAULT v" for a default value v; its length is that of "name type" plus 12, 9 and 9 + the length of v for the clauses present |
| Column.ContainsUpper | src/schema/column.rs:58-60 | searching the upper-cased type for an upper-case word is searching the type for it ignoring case |
| Column.Affinity | src/schema/column.rs:54-75 | INT anywhere, ignoring case, gives Integer and nothing else does; Text exactly when there is no INT but CHAR, CLOB or TEXT; Blob exactly for BLOB without those or an empty type; Real exactly for REAL, FLOA or DOUB without the earlier words; Numeric otherwise; never None |
| Column.AffinityIgnoresCase | src/schema/column.rs:58 | upper-casing the declared type does not change the affinity |
| Column.IntegerExample | src/schema/column.rs:58-61 | "integer" gives Integer affinity |
| Schema.SchemaCatalog.constructor | src/schema/mod.rs:65-73 | a new catalog has four empty maps and version 4 |
| Schema.SchemaCatalog.AddTable | src/schema/mod.rs:75-77 | the table is filed under its own name, replacing any earlier table of that name; nothing else changes |
| Schema.SchemaCatalog.AddIndex | src/schema/mod.rs:79-81 | the index is filed under its own name; nothing else changes |
| Schema.SchemaCatalog.GetTable | src/schema/mod.rs:83-85 | a table is found exactly when one of that name was added, and it is the one filed under that name |
| Schema.SchemaCatalog.GetTableNames | src/schema/mod.rs:91-93 | every table name exactly once |
| Schema.ListKeys | src/schema/mod.rs:92 | collecting a map's keys gives each key exactly once |
| Schema.SchemaCatalog.GetIndexesForTable | src/schema/mod.rs:95-99 | exactly the indexes whose table is the given one, each once, as filed in the catalog |
| Schema.FilterIndexes | src/schema/mod.rs:96-98 | the filtered values are exactly the map's indexes on that table, each once |
| Lexer.NewTokenizer | src/parser/lexer.rs:111-144 | the tokenizer keeps the input and its keyword table is exactly the 25 entries in the order they are pushed |
| Lexer.FirstWord | src/parser/lexer.rs:159 | the first word is the longest whitespace-free prefix: it is followed by whitespace or the end, and is non-empty when the text does not start with whitespace |
| Lexer.Words | src/parser/lexer.rs:159 | `split_whitespace` yields only non-empty words without whitespace |
| Lexer.WordsOfJoin | src/parser/lexer.rs:159 | splitting words joined by single spaces gives the words back |
| Lexer.LookupKeyword | src/parser/lexer.rs:180-184 | a keyword is found exactly when some entry equals the word ignoring ASCII case, and the result is such an entry's token type |
| Lexer.MatchKeyword | src/parser/lexer.rs:178-221 | `match_keyword` carries no postcondition of its own; what it returns is stated by `KeywordFirst` (the first matching keyword entry wins), `LookupKeywordFirst` (no earlier entry matches) and `NoKeywordClassifies` (otherwise `ClassifyWord` and `ClassifyWordRules` decide) |
| Lexer.KeywordFirst | src/parser/lexer.rs:178-184 | a word matching a keyword entry becomes the token type of the first matching entry, before any number, string or punctuation rule is tried |
| Lexer.LookupKeywordFirst | src/parser/lexer.rs:180-184 | the entry found is the first that matches: no earlier entry equals the word ignoring ASCII case |
| Lexer.NoKeywordClassifies | src/parser/lexer.rs:186-221 | a word no keyword entry matches is classified by the number, float, string, punctuation and identifier rules |
| Lexer.KeywordsMatch | src/parser/lexer.rs:111-144 | in the tokenizer's own table no entry shadows another: a word matching entry k becomes entry k's token type |
| Lexer.KeywordExamples | src/parser/lexer.rs:136-137 | "null" is the Null keyword and "TRUE" the boolean true |
| Lexer.ClassifyWord | src/parser/lexer.rs:186-221 | a word is an Integer exactly when it parses as an i64, with that value; a Float result is an f64 literal keeping its text, a String result a quoted word holding the text between the quotes, an Identifier the word itself |
| Lexer.ClassifyWordRules | src/parser/lexer.rs:186-221 | the converse rules: every quoted word of two or more characters is String of its interior, every f64 literal that is no i64 is Float of the word, and a word is an Identifier exactly when no number, string or punctuation rule applies |
| Lexer.ClassifyWordPunctuation | src/parser/lexer.rs:203-221 | an identifier is a word that is no punctuation, and every non-literal, non-identifier result is the word's punctuation token |
| Lexer.TokenDisplay | src/parser/lexer.rs:69-82 | every token displays as non-empty text |
| Lexer.DisplayTags | src/parser/lexer.rs:69-82 | a display starts with "INT:" exactly for an integer, "IDENT:" exactly for an identifier and "STRING:'" exactly for a string, so no other token is mistaken for them |
| Lexer.IntToStringParses | src/parser/lexer.rs:187-188 | every i64 written in decimal parses back as that integer |
| Lexer.NotNumeric | src/parser/lexer.rs:187-193 | a word starting with anything but a digit, sign, '.', 'i' or 'n' is neither an i64 nor an f64 |
| Lexer.IntegerExample | src/parser/lexer.rs:187-188 | "-42" becomes Integer(-42) |
| Lexer.OperatorExample | src/parser/lexer.rs:201-216 | "!=" becomes NotEquals, while "-" is not a number and becomes Minus |
| Lexer.StringExample | src/parser/lexer.rs:196-198 | "'ab'" becomes String("ab") |
| Lexer.IdentifierExample | src/parser/lexer.rs:221 | "users" becomes Identifier("users") |
| Lexer.ClassifyWordClean | src/parser/lexer.rs:186-221 | the text a token takes from a whitespace-free word holds no whitespace |
| Lexer.MatchKeywordClean | src/parser/lexer.rs:178-221 | the same holds for `match_keyword` when no keyword entry holds whitespace |
| Lexer.DisplayIsOneWord | src/parser/lexer.rs:69-82 | the display of a SELECT, FROM, WHERE, integer, string, identifier, float or unknown token taken from a word is one non-empty word |
| Lexer.Tokenize | src/parser/lexer.rs:146-176 | the loop's result is `Lex` over the input's words: one token per word, in order, never an error |
| Lexer.Lex | src/parser/lexer.rs:159-171 | one token per word |
| Lexer.LexTokens | src/parser/lexer.rs:159-171 | token i has the type `match_keyword` gives word i, the word's length, and the line and column reached after the words before it |
| Lexer.LineOfWord | src/parser/lexer.rs:155-170 | the line counter starts at 1 and goes up after words 0, 5, 10, ...: after n words it is 1 + ceil(n/5) |
| Lexer.ColumnOfWord | src/parser/lexer.rs:156-170 | after word 0, 5, 10, ... the column is back to 1; after any other word it moves past the word and one space |
| Ast.NewBuilder | src/parser/ast.rs:115-117 | a new builder holds the tokens at position 0 |
| Ast.Build | src/parser/ast.rs:119-150 | building never fails |
| Ast.QueryTypeOnlyFirst | src/parser/ast.rs:123-136 | only the first token decides the query type |
| Ast.UnknownUnlessSelectOrIdentifier | src/parser/ast.rs:123-136 | no token, or a first token that is neither SELECT nor an identifier, gives Unknown |
| Ast.QueryTypeOf | src/parser/ast.rs:123-136 | the type is Select exactly when the first token is the SELECT keyword, and a named statement type only when the first token is an identifier equal to its keyword ignoring ASCII case |
| Ast.UnknownExactly | src/parser/ast.rs:123-136 | Unknown exactly when there is no token, or the first token is neither SELECT nor an identifier naming a statement type |
| Ast.NameClassifiesBack | src/parser/ast.rs:123-136 | an identifier equal, ignoring ASCII case and in any spelling, to the keyword of INSERT, UPDATE, DELETE, CREATE, ALTER or DROP classifies as that statement type |
| Ast.DisplayClassifiesBack | src/parser/ast.rs:25-38 | an identifier spelling a statement type's display name classifies back as that type |
| Ast.QueryTypeNameInjective | src/parser/ast.rs:25-38 | different query types display differently |
| Ast.QueryTypeName | src/parser/ast.rs:25-38 | the display name is an upper-case word equal, ignoring ASCII case, to the statement's keyword |
| Ast.Displays | src/parser/ast.rs:139-143 | one display form per token, in order |
| Ast.QueryTextSplitsBack | src/parser/ast.rs:139-144 | when every token displays as one word, splitting the query text at whitespace gives back the display forms |
| Validator.QueryValidator.constructor | src/parser/validator.rs:16-21 | a new validator has no errors and no warnings |
| Validator.QueryValidator.Validate | src/parser/validator.rs:23-89 | a statement is rejected exactly when its type is Unknown |
| Validator.SemanticAnalyzer.constructor | src/parser/validator.rs:106-110 | a new analyzer knows no tables |
| Validator.SemanticAnalyzer.AddTable | src/parser/validator.rs:112-114 | the table's column list is registered, replacing an earlier one of that name |
| Validator.SemanticAnalyzer.Analyze | src/parser/validator.rs:116-133 | analysis accepts every statement |
| Validator.SemanticAnalyzer.CheckColumnExists | src/parser/validator.rs:135-140 | true exactly when the table is registered and lists the column |
| Validator.SemanticAnalyzer.IsColumnAmbiguous | src/parser/validator.rs:142-152 | true exactly when more than one registered table lists the column |
| Validator.AddTableOnlyAffectsItself | src/parser/validator.rs:112-140 | registering a table changes column lookups for that table only |
| Validator.TwoTablesMakeAmbiguous | src/parser/validator.rs:142-152 | a column listed by two different tables is ambiguous |
| Validator.AmbiguousHasTwoTables | src/parser/validator.rs:142-152 | an ambiguous column is listed by two different tables |
| Logger.LevelsTotal | src/utils/logger.rs:12-20 | the derived order on levels is total and strict, with Trace lowest and Fatal highest |
| Logger.LevelNameInjective | src/utils/logger.rs:22-33 | different levels display differently |
| Logger.LevelName | src/utils/logger.rs:22-33 | every level displays as 4 or 5 upper-case letters |
| Logger.Logger.constructor | src/utils/logger.rs:100-106 | a new logger has the given minimum level, an empty history and room for 1000 entries |
| Logger.Logger.Log | src/utils/logger.rs:108-125 | a message below the minimum level changes nothing; any other is appended at the back without a component, after the oldest entry is dropped when the history is full |
| Logger.Logger.LogWithComponent | src/utils/logger.rs:127-144 | as `log`, with the component recorded in the entry |
| Logger.StoredWindow | src/utils/logger.rs:119-124 | dropping the oldest entry when full and appending keeps the history equal to the last 1000 accepted entries |
| Logger.StoredBounded | src/utils/logger.rs:119-124 | a stored history never holds more than `max_entries` entries, and the newest entry is last |
| Logger.Logger.GetEntries | src/utils/logger.rs:146-152 | the entries are the last (at most 1000) accepted entries, oldest first |
| Logger.Logger.GetEntriesByLevel | src/utils/logger.rs:154-164 | the pass over the history returns `OfLevel`: its entries of that level, in order |
| Logger.OfLevel | src/utils/logger.rs:156-160 | the filtered entries are no more than the history and all of the requested level |
| Logger.OfLevelMembers | src/utils/logger.rs:156-160 | an entry is returned exactly when it is stored and has the level |
| Logger.OfLevelAllOfLevel | src/utils/logger.rs:156-160 | when every stored entry has the level, all of them come back in order |
| Logger.OfLevelConcat | src/utils/logger.rs:156-160 | filtering by level distributes over concatenation, so the order of the history is kept |
| Logger.OfLevelAppend | src/utils/logger.rs:119-164 | appending an entry adds it at the back of its own level's list and to no other |
| Logger.Logger.Clear | src/utils/logger.rs:166-170 | the history is emptied and the minimum level stays |

## Left out

- Raw file I/O (`File::open`, `seek`, `read_exact`, cloned handles) is not modelled. A file is the sequence of its bytes, and a read past its end is an I/O error.
- `parse_value` and `SqliteValue` are not part of this model. Record decoding takes the value decoder as a parameter that returns a value and the number of bytes it used, or an error.
- Locks are plain fields: `Arc<Mutex<..>>`, `Rc<RefCell<..>>` and the `RefCell`s of the binary page reader. The locks add nothing to the sequential behaviour.
- Printing is not modelled: every `println!`, the ANSI colours and `LogEntry::format`, and the progress output of the validator and the analyzer. Log timestamps come from the clock, so each logging call takes its timestamp as a parameter.
- Floating point is left out: the `PageCache::stats` hit rate, `EngineStats` and `IndexStatistics` costs.
- Lexer.ClassifyWord: a word that parses as an `f64` gives a `Float` token holding the literal's text, not the `f64` value. Which words parse follows the decimal grammar of `str::parse::<f64>`.
- Lexer.TokenDisplay: a `Float` token displays its literal text where Rust's `Debug` prints the formatted `f64`. An `Unknown` payload is shown without `Debug` escaping.
- Lexer.DisplayIsOneWord: stated for the SELECT, FROM, WHERE, integer, string, identifier, float and unknown tokens only. It is not proved for the `Debug` names of the other keywords and punctuation.
- Lexer.Tokenize: a token's length counts characters, where Rust's `len()` counts UTF-8 bytes. The two agree on ASCII text.
- Column.Affinity: upper-casing is ASCII only, where Rust's `to_uppercase` is Unicode-aware.
- Utils.FromHexString: the input is taken as ASCII text. Rust's byte-range slicing of a non-ASCII string, which panics off a character boundary, is not modelled.
- Schema.SchemaCatalog.GetTableNames: a Rust `HashMap` iterates in an unspecified order. So the getters promise their contents and their count, not their order. The same holds for `Schema.SchemaCatalog.GetIndexesForTable` and `Validator.SemanticAnalyzer.IsColumnAmbiguous`.
- `SchemaCatalog::get_tables` and the views and triggers maps are not modelled beyond the constructor, because no named operation reads them.
- Column.EstimateStorageSize: `get_affinity` never returns `None`, so the `None` arm (0 bytes) of `estimate_storage_size` is unreachable. It is not stated.
- Binary.PageBytes: the `(page_id - 1) * page_size` product (binary.rs:101) is computed in `usize`. Its overflow, a panic in a debug build and a wrap-around in a release build, is not modelled: the product is exact, and a block past the end of the file is an I/O error.
- Lexer.MatchKeyword: carries no postcondition of its own. What it returns is stated by `KeywordFirst`, `LookupKeywordFirst`, `NoKeywordClassifies`, `ClassifyWord` and `ClassifyWordRules`, so that the tokenizer's proofs do not have to carry it.
- `BTreePageCollection::get_node`, `BTreeTraversal::search` and `BTreeNode::get_value` return constant dummy data. The node the iterator starts from is a parameter.
- The `sqlparser`-based `QueryAnalyzer`, the planner, the optimizer, the `sqlite3` subprocess calls, `rusqlite`, the HTTP server and the interactive shell all delegate to code outside this model or do I/O.

## Findings

| source | as written | input that shows it | evidently intended | confidence | as-written member | corrected member |
|---|---|---|---|---|---|---|
| src/engine/storage/varint.rs:55-80 | `encode` pushes the flagged low 7-bit groups first and the unflagged high group last, then reverses the vector. The first byte therefore has its high bit clear, and `decode` stops after it. | 128 is written as [0x01, 0x80], which `decode` reads as (1, 1) | the big-endian varint of the file format (all but the last byte flagged, a 9-byte form above 2^56), which `decode` reads back | not executed | VarInt.WrittenEncodingDoesNotRoundTrip | VarInt.SqliteEncodingRoundTrip |
| src/engine/storage/binary.rs:130-141 | `parse_page_data` reads `cell_count` from bytes +1..+2 and `free_offset` from +3..+4 | a leaf table page with 3 cells and no freeblock is reported with 0 cells and free offset 3 | the cell count at +3 and the first freeblock at +1, as section 1.6 of the file format lays them out | not executed | Binary.ParsePageDataMiscounts | Binary.CorrectedParsePageDataReadsHeader |
| src/classes/database.rs:103-112 | `get_page(n)` reads `page_size` bytes at `n * page_size`, then drops their first 8 bytes before `Page::new` | page 2 of a file is read from the start of page 3, and `Page::new` decodes bytes 8..15 of that page as its header | page n (numbered from 1) at `(n - 1) * page_size`, after the 100-byte database header on page 1, with its own page header decoded | not executed | Database.GetPageSkipsPageHeader | Database.CorrectedGetPageReadsPage |
| src/classes/database.rs:74-75 | the version-valid-for number and the SQLite version number are read at offsets 72 and 76 | a header whose reserved bytes 72..79 are zero and whose version number is 3045000 is reported with version 0 | the two fields read at offsets 92 and 96, as section 1.3 of the file format places them | not executed | Database.HeaderMisreadsVersionFields | Database.CorrectedHeaderRoundTrip |
| src/classes/record.rs:149-154 | the serial-code walk stops at `header_size - 1` bytes after the header-size varint, and the values start there. This is right only when that varint is 1 byte long. | a header of 128 or more bytes (two-byte header-size varint) gives one serial code too many, read from the first value byte, and the values start one byte late | serial codes read up to `header_size` bytes from the record start, and values from the end of the header | not executed | Record.LongHeaderMisread | Record.CorrectedRecordReadsHeader |
| src/engine/btree/page_cache.rs:58-71 | `put` of an id that is already cached skips eviction but still pushes the id onto the LRU queue again | capacity 1: put 1, put 1, put 2, put 3 leaves pages 2 and 3 cached | a re-put moves the id to the back of the LRU queue, so the cache never holds more than its capacity | not executed | PageCache.PutExceedsCapacity | PageCache.CorrectedPutKeepsCapacity |
| src/engine/btree/node.rs:111-130 | `insert_key` checks room for the key, the value and 8 bytes but not for the 16-byte cell pointer, so `free_space` can underflow | on a new 4096-byte leaf a 4048-byte cell is accepted, after which `free_space` panics | an insert also needs room for its cell pointer, so `free_space` stays defined | not executed | Node.InsertBreaksFreeSpace | Node.CorrectedInsertKeepsFreeSpace |
