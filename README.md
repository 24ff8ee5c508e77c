# shoko archive engine, modelled in Dafny

`shoko` stores many files in one archive file laid out as the header
`"SHOKO001"`, a region of blobs, an index with one record per stored path,
and a 14-byte footer (index start as a little-endian u64, entry count as a
little-endian u32, then `"SK"`). Each blob is its content run-length
compressed (above level 0) and then encrypted. This project models:

- the run-length codec: `compress` and `decompress`;
- the index and footer protocol of both writers and of the reader;
- the blob pipeline, write then read;
- the `ShokoArchive` state machine: `create`, `open`, `rewrite_index`,
  `write_file_direct`, `extract_file`, `delete_file` and `defrag`;
- the bounded `ShadowStack` and the bump-offset `SecureArena`.

It proves laws about them. The main ones:

- `decompress(compress(x, l)) == Ok(x)`.
- `read_blob` returns what `write_blob` wrote.
- `open` after `rewrite_index` reads back the same entries.
- `extract_file` returns the last content written for a path, and writes
  and deletes do not disturb other paths.
- `defrag` packs the blobs back to back without changing what any path
  extracts to.
- The archive invariant (unique paths, blobs stacked in entry order inside
  the file, each one a valid sealed blob) is kept by every operation.

Modules, one per file:

| file | module | models |
|---|---|---|
| common.dfy | `Common` | bytes, little-endian integers, `Result`/`Option`, `io::ErrorKind` |
| compress.dfy | `Codec` | shoko/src/compress.rs |
| decompress.dfy | `Decompress` | target/package/shoko-0.1.1-rc1/src/decompress.rs |
| cipher.dfy | `Cipher` | the encryption calls of target/package/shoko-0.1.1-rc1/src/encrypt.rs (a stand-in cipher) |
| file.dfy | `FileIo` | the `std::fs::File` operations the engine uses: bytes plus a cursor |
| layout.dfy | `Layout` | `ShokoEntry`, index records, footer, and the parse of both |
| blob.dfy | `Blob` | what `write_blob` stores and what `read_blob` makes of it |
| write_tree.dfy | `TreeWriter` | shoko/src/write.rs |
| write_package.dfy | `PackageWriter` | target/package/shoko-0.1.1-rc1/src/write.rs |
| read.dfy | `Reader` | shoko/src/read.rs |
| entries.dfy | `Entries` | the in-memory entry list: `retain`, `find`, blob placement |
| archive_spec.dfy | `ArchiveSpec` | each archive operation as a function of the old file and entries, and the laws they obey |
| archive.dfy | `Archive` | shoko/src/archive.rs and shoko/src/delete.rs as the class `ShokoArchive` |
| shadow.dfy | `Shadow` | shoko/src/shadow.rs |

The imperative code keeps its form:

- The file is a class `FileIo.FileHandle` with a byte sequence and a cursor.
  A write at the cursor overwrites. Past the end it extends the file, and a
  gap is filled with zeros.
- The writers and the reader are classes over a handle. Their methods are
  the source's sequences of `write_all`, `seek` and `read_exact` calls.
- The encoder and decoder are methods with the source's loops.
- The archive is a class with the file and the entry list.

Each method is proved to produce what a function of `ArchiveSpec`, `Layout`,
`Blob` or `Codec` describes, and the laws are lemmas about those functions.

`shoko/src/archive.rs` imports the writer of `shoko/src/write.rs`. That
writer does not encrypt, yet `read_blob` always decrypts (see Findings). The
archive here is therefore built on the published writer of
`target/package/shoko-0.1.1-rc1/src/write.rs`, which encrypts. The
non-encrypting writer is modelled as written, beside it.

Behaviour of the code that is easy to miss:

- Decrypting fewer than 12 bytes is `InvalidData`
  (target/package/shoko-0.1.1-rc1/src/encrypt.rs:51-53), and this is checked
  before the key.
- A corrupt footer is not an error: `open` then finds no entries. A valid
  footer whose index is cut short fails with `UnexpectedEof`.
- On an archive this engine wrote (every blob as `write_file_direct` stores
  it, and the file ending with its index), `defrag` shrinks the file by
  exactly the gaps between the blobs: strictly when a delete has left one,
  not at all when there is none. This needs each stored blob to be what the
  compressor makes of its content. A blob written otherwise is re-encoded,
  possibly larger: the 5-byte literal record `[1, 3, 'A', 'A', 'B']` stored at
  level 7 is rewritten as the 6-byte `[0, 2, 'A', 1, 1, 'B']`.
- The working-tree writer stores blobs unencrypted.

Randomness and the environment are parameters:

- The `SHOKO_KEY` environment variable is `env: Option<seq<byte>>`.
- The random 12-byte nonce of each encryption is `nonce`.
- `defrag`, which encrypts once per entry, takes `nonces: nat -> Nonce`.

## Model

| member | source | states |
|---|---|---|
| Common.ToLE | shoko/src/write.rs:30-33 | `to_le_bytes` of a value below 256^width gives exactly `width` bytes |
| Common.LE32 | shoko/src/write.rs:30 | `(len as u32).to_le_bytes()` is 4 bytes |
| Common.LE64 | shoko/src/write.rs:32-33 | `u64::to_le_bytes` is 8 bytes |
| Common.FromLE | shoko/src/read.rs:33 | `from_le_bytes` of n bytes is below 256^n |
| Common.FromToLE | shoko/src/read.rs:41 | decoding a little-endian encoding gives the value back |
| Common.ToFromLE | shoko/src/read.rs:45 | every byte string is the encoding of its decoding |
| Common.LE32Inverse | shoko/src/write.rs:30 | a u32 field read back gives the written value modulo 2^32 (the `as u32` cast) |
| Common.LE64Inverse | shoko/src/write.rs:32 | a u64 field read back gives the value modulo 2^64 |
| Codec.Threshold | shoko/src/compress.rs:9-14 | 4 for levels 1-3, 3 for 4-6, 2 for 7-9, 3 for level 0 and levels above 9; always between 2 and 4 |
| Codec.RunScan | shoko/src/compress.rs:17-22 | the run scan stays within the data and within 255 bytes |
| Codec.RunLength | shoko/src/compress.rs:17-22 | the run at `i` is 1 to 255 bytes long and inside the data |
| Codec.RunScanMaximal | shoko/src/compress.rs:18-21 | the scan stops only at 255 bytes, at the end of the data, or before a different byte |
| Codec.RunLengthMaximal | shoko/src/compress.rs:17-22 | the run is all copies of `data[i]` and cannot be extended |
| Codec.LiteralScan | shoko/src/compress.rs:30-35 | the literal scan stays inside the data and within 254 bytes |
| Codec.LiteralScanMaximal | shoko/src/compress.rs:31-35 | the literal holds no two equal adjacent bytes, whatever the threshold, and stops only at the end, at 254 bytes, or at an equal pair |
| Codec.Repeat | target/package/shoko-0.1.1-rc1/src/decompress.rs:21-23 | `n` copies of `v`: length `n`, every byte `v` |
| Codec.Next | shoko/src/compress.rs:24-48 | every iteration of the encoder advances `i` by at least 1 and at most to the end |
| Codec.EmitNext | shoko/src/compress.rs:24-48 | emitting the chosen record leaves exactly the plan from the next position to emit |
| Codec.RunExpands | shoko/src/compress.rs:25-28 | a run record over equal bytes stands for exactly the consumed slice |
| Codec.NextCovers | shoko/src/compress.rs:24-48 | each chosen record is well formed and stands for exactly the bytes it consumes, including the one-byte literal fallback |
| Codec.PlanCovers | shoko/src/compress.rs:16-50 | runs have lengths in [threshold, 255], literals in [1, 254], and the records in order stand for exactly the input |
| Codec.Plan | shoko/src/compress.rs:16-50 | reference definition of the encoder's outer loop: the records chosen from position `i` on, in order; its laws are PlanCovers and EmitNext |
| Codec.SerializeSize | shoko/src/compress.rs:24-47 | well-formed records serialise to at most three bytes per byte they stand for |
| Codec.CompressedSize | shoko/src/compress.rs:16-51 | the output is at most three times the input |
| Codec.CompressedEmpty | shoko/src/compress.rs:2-4 | the output is empty exactly for empty input, and otherwise starts with a 0x00 or 0x01 tag |
| Codec.ScanRun | shoko/src/compress.rs:17-22 | the inner run loop computes the maximal run length |
| Codec.ScanLiteral | shoko/src/compress.rs:30-35 | the inner literal loop computes the literal scan, with the source's exact stop condition |
| Codec.EmitRecord | shoko/src/compress.rs:24-48 | one outer iteration pushes the chosen record's bytes and moves `i` to the next record |
| Codec.Compressed | shoko/src/compress.rs:1-52 | reference definition of `compress`: empty for empty input, else the serialised plan; its laws are CompressedSize, CompressedEmpty and Decompress.RoundTrip |
| Codec.Compress | shoko/src/compress.rs:1-52 | the encoder's loops produce the serialisation of the plan |
| Decompress.Decode | target/package/shoko-0.1.1-rc1/src/decompress.rs:2-43 | reference definition of `decompress`, record by record; its cases are DecodeCases, and Decompress.Decompress is proved equal to it |
| Decompress.DecodeCases | target/package/shoko-0.1.1-rc1/src/decompress.rs:2-43 | empty input is `Ok(empty)`; a short run, a missing literal length, an over-long literal and a bad control byte are the four errors |
| Decompress.DecodeRunAt | target/package/shoko-0.1.1-rc1/src/decompress.rs:14-26 | a run record appends `run_len` copies of `value` and consumes 3 bytes |
| Decompress.DecodeLiteralAt | target/package/shoko-0.1.1-rc1/src/decompress.rs:27-40 | a literal record appends the next `lit_len` bytes verbatim and consumes `2 + lit_len` |
| Decompress.RunStep | target/package/shoko-0.1.1-rc1/src/decompress.rs:18-25 | decoding across a run record moves its expansion into the output |
| Decompress.LiteralStep | target/package/shoko-0.1.1-rc1/src/decompress.rs:31-39 | decoding across a literal record moves its payload into the output |
| Decompress.AppendRun | target/package/shoko-0.1.1-rc1/src/decompress.rs:21-23 | the `for` loop appends exactly `n` copies of the value |
| Decompress.DecodeNext | target/package/shoko-0.1.1-rc1/src/decompress.rs:10-44 | one iteration either returns the error decoding the rest yields, or advances `i` and keeps output plus rest unchanged |
| Decompress.Decompress | target/package/shoko-0.1.1-rc1/src/decompress.rs:1-48 | the decoder loop returns exactly `Decode(data)`: early errors with no partial output |
| Decompress.DecodeRecord | target/package/shoko-0.1.1-rc1/src/decompress.rs:13-40 | a record's bytes decode to what it stands for, whatever follows |
| Decompress.DecodeSerialize | target/package/shoko-0.1.1-rc1/src/decompress.rs:9-47 | serialised records decode without error to the concatenation of their expansions |
| Decompress.DecodeParses | target/package/shoko-0.1.1-rc1/src/decompress.rs:9-47 | a stream that decodes is a serialisation of records that stand for its decoding |
| Decompress.DecodeAppend | target/package/shoko-0.1.1-rc1/src/decompress.rs:9-47 | decoding a concatenation of complete streams concatenates the decodings |
| Decompress.DecodeAppendRecords | target/package/shoko-0.1.1-rc1/src/decompress.rs:9-47 | serialised records followed by any bytes decode as their expansion in front of the rest |
| Decompress.RoundTrip | shoko/src/compress.rs:16-51 | `decompress(compress(x, l)) == Ok(x)` for every input and level |
| Cipher.GetKey | target/package/shoko-0.1.1-rc1/src/encrypt.rs:9-31 | an unset key is `PermissionDenied`, a key not 32 bytes long is `InvalidInput`, otherwise the key |
| Cipher.Seal | target/package/shoko-0.1.1-rc1/src/encrypt.rs:42-47 | the sealed form: the nonce, a ciphertext as long as the plaintext, then a 16-byte tag; its laws are EncryptDecrypt and UnmaskMask |
| Cipher.Unseal | target/package/shoko-0.1.1-rc1/src/encrypt.rs:59-71 | split off the nonce and open the rest, `PermissionDenied` when the tag is missing or wrong; its laws are EncryptDecrypt and DecryptSize |
| Cipher.EncryptData | target/package/shoko-0.1.1-rc1/src/encrypt.rs:33-48 | fails exactly when the key is unusable, with the key's error; otherwise the nonce, then 16 more bytes than the plaintext after it |
| Cipher.DecryptData | target/package/shoko-0.1.1-rc1/src/encrypt.rs:50-72 | fewer than 12 bytes is `InvalidData`, checked before the key; then the key's error; a success is 28 bytes shorter than its input |
| Cipher.UnmaskMask | target/package/shoko-0.1.1-rc1/src/encrypt.rs:62-69 | opening the ciphertext under the same key and nonce gives the plaintext |
| Cipher.EncryptDecrypt | target/package/shoko-0.1.1-rc1/src/encrypt.rs:33-72 | encryption fails exactly on an unusable key, adds 28 bytes, and decryption inverts it |
| Cipher.DecryptSize | target/package/shoko-0.1.1-rc1/src/encrypt.rs:50-72 | a successful decryption removes exactly the 28 framing bytes |
| Cipher.DecryptShort | target/package/shoko-0.1.1-rc1/src/encrypt.rs:51-53 | fewer than 12 bytes is `InvalidData`, whatever the key |
| Blob.Processed | shoko/src/write.rs:15-19 | what both writers make of the content first: compressed above level 0, verbatim at level 0; UnprocessProcessed is its inverse law |
| Blob.Sealed | target/package/shoko-0.1.1-rc1/src/write.rs:15-22 | what the package `write_blob` stores: the processed content, encrypted; its laws are SealedSize and SealedDecodes |
| Blob.Unprocessed | shoko/src/read.rs:23-27 | the last step of `read_blob`: decompressed above level 0 with a malformed stream as `InvalidData`, passed through at level 0; UnprocessProcessed is its law |
| Blob.BlobDecode | shoko/src/read.rs:21-27 | decrypt, then the level's decompression, the first error ending it; its laws are SealedDecodes and PlainBlobUnreadable |
| Blob.UnprocessProcessed | shoko/src/read.rs:23-27 | decompressing above level 0 and passing through at level 0 inverts the writer's processing |
| Blob.SealedSize | target/package/shoko-0.1.1-rc1/src/write.rs:15-22 | `write_blob` fails exactly on a key error; the blob is the processed size plus 28 |
| Blob.SealedDecodes | target/package/shoko-0.1.1-rc1/src/write.rs:15-22 | what the package writer seals decrypts and decompresses back to the content |
| Blob.BlobRoundTrip | target/package/shoko-0.1.1-rc1/src/write.rs:15-29 | `read_blob` at the position and size `write_blob` used returns the content, whatever else the file holds |
| Blob.BlobRead | shoko/src/read.rs:15-28 | reference definition of `read_blob`: exactly `size` bytes at `offset`, decrypted, decompressed above level 0; its laws are BlobReadOk and BlobRoundTrip |
| Blob.BlobReadOk | shoko/src/read.rs:15-28 | a successful `read_blob` read all `size` bytes inside the file, and above level 0 decoded a complete stream |
| Blob.PlainBlobUnreadable | shoko/src/write.rs:14-26 | content under 12 bytes stored by the non-encrypting writer reads back as `InvalidData` |
| Reader.ShokoReader.constructor | shoko/src/read.rs:11-13 | the reader wraps the given handle |
| Reader.ShokoReader.ReadBlob | shoko/src/read.rs:15-28 | seek, `read_exact`, decrypt and decompress give `BlobRead` of the file |
| Reader.ShokoReader.ReadIndexEntry | shoko/src/read.rs:30-52 | the five `read_exact` calls return the record at the cursor and leave the cursor after it, or its error |
| Reader.ShokoReader.GetFooterInfo | shoko/src/read.rs:54-77 | returns `FooterInfo` of the file: too short, bad trailer, or the two footer fields |
| TreeWriter.ShokoWriter.constructor | shoko/src/write.rs:10-12 | the writer wraps the given handle |
| TreeWriter.ShokoWriter.WriteBlob | shoko/src/write.rs:14-26 | writes the processed content unencrypted at the cursor, changes nothing else, and returns its length |
| TreeWriter.ShokoWriter.WriteIndexEntry | shoko/src/write.rs:28-36 | writes exactly the 21 + path bytes of the record at the cursor |
| TreeWriter.ShokoWriter.Finalize | shoko/src/write.rs:38-43 | writes exactly the 14-byte footer at the cursor |
| TreeWriter.ShokoWriter.SeekToEnd | shoko/src/write.rs:45-47 | returns the file length and moves the cursor there |
| PackageWriter.CountToBytes | target/package/shoko-0.1.1-rc1/src/write.rs:49-51 | 4 bytes that decode to the count |
| PackageWriter.ShokoWriter.constructor | target/package/shoko-0.1.1-rc1/src/write.rs:11-13 | the writer wraps the given handle |
| PackageWriter.ShokoWriter.WriteBlob | target/package/shoko-0.1.1-rc1/src/write.rs:15-29 | a key error writes nothing; otherwise the sealed blob is written at the cursor and its length returned |
| PackageWriter.ShokoWriter.WriteIndexEntry | target/package/shoko-0.1.1-rc1/src/write.rs:31-39 | the same 21 + path byte record at the cursor |
| PackageWriter.ShokoWriter.Finalize | target/package/shoko-0.1.1-rc1/src/write.rs:41-46 | the 14-byte footer at the cursor |
| FileIo.Pad | shoko/src/archive.rs:75 | a cursor past the end sees the file zero-extended to it |
| FileIo.Splice | shoko/src/write.rs:22 | a write leaves the file as long as the larger of its old end and the write's end |
| FileIo.Resize | shoko/src/archive.rs:91 | `set_len(n)` leaves exactly `n` bytes |
| FileIo.SpliceFrame | shoko/src/write.rs:22 | a write changes only the bytes in [cursor, cursor + n); a gap reads as zeros |
| FileIo.SpliceSplice | shoko/src/write.rs:30-31 | two writes in a row equal one write of both buffers |
| FileIo.SpliceFields | shoko/src/write.rs:30-34 | the five field writes of a record equal one write of the record |
| FileIo.ResizeSplice | shoko/src/archive.rs:90-91 | `set_len` at the cursor after a write cuts the file at the write's end |
| FileIo.ReadAt | shoko/src/read.rs:19 | a successful `read_exact` of `n` bytes yields `n` bytes |
| FileIo.SpliceRead | shoko/src/read.rs:16-19 | reading back at the write position yields what was written |
| FileIo.SpliceEmpty | shoko/src/archive.rs:27 | writing into an empty file gives the written bytes |
| FileIo.FileHandle.constructor | shoko/src/archive.rs:36-39 | an opened file: its bytes, cursor at 0 |
| FileIo.FileHandle.WriteAll | shoko/src/write.rs:22 | `write_all` splices the buffer at the cursor and advances it |
| FileIo.FileHandle.StreamPosition | shoko/src/write.rs:21 | returns the cursor |
| FileIo.FileHandle.Seek | shoko/src/read.rs:16 | moves the cursor, bytes unchanged |
| FileIo.FileHandle.SeekEnd | shoko/src/write.rs:46 | moves the cursor to the end and returns it |
| FileIo.FileHandle.SeekFromEnd | shoko/src/read.rs:60 | `SeekFrom::End(-n)`: `InvalidInput` before the start, else the position `len - n` |
| FileIo.FileHandle.ReadExact | shoko/src/read.rs:19 | returns the next `n` bytes and advances, or `UnexpectedEof` |
| FileIo.FileHandle.SetLen | shoko/src/archive.rs:91 | truncates or zero-extends, cursor unchanged |
| Layout.IndexBytes | shoko/src/archive.rs:78-85 | the index the `rewrite_index` loop writes: each entry's record in order; its laws are IndexBytesSnoc and ParseIndexBytes |
| Layout.EntryBytes | shoko/src/write.rs:28-36 | an index record is 21 + path bytes |
| Layout.FooterBytes | shoko/src/write.rs:38-43 | the footer is 14 bytes |
| Layout.FooterInfo | shoko/src/read.rs:54-77 | a footer that reads back holds a u64 index start and a u32 count |
| Layout.ParseEntryAt | shoko/src/read.rs:30-51 | reference definition of `read_index_entry` at position `p`: the entry and the position after it, or the first short read's `UnexpectedEof`; its laws are ParseEntryExtent and ParseEntryBytes |
| Layout.ParsePathAt | shoko/src/read.rs:35-51 | the four reads of a record after its length field, the first short read ending in `UnexpectedEof`; ParseFields is its law |
| Layout.ParseEntryExtent | shoko/src/read.rs:30-51 | a record read consumes exactly 4 + path length + 17 bytes inside the file; a cut record is `UnexpectedEof` |
| Layout.NextOffset | shoko/src/archive.rs:66-73 | reference definition of the index start: 8 for no entries, else the largest `offset + size`; its laws are NextOffsetBounds and ArchiveSpec.NextOffsetPastHeader |
| Layout.NextOffsetBounds | shoko/src/archive.rs:66-73 | the index start is the maximum blob end: no blob ends after it and one ends there |
| Layout.ParseFields | shoko/src/read.rs:30-51 | five successful reads of the record's widths parse as one entry |
| Layout.ParseRecord | shoko/src/read.rs:30-51 | five fields laid out at `p` parse as the entry they encode |
| Layout.ParseHeldRecord | shoko/src/read.rs:30-51 | a record held at `p` parses as its fields |
| Layout.EntryFields | shoko/src/write.rs:28-36 | the fields of a record decode to the entry's values |
| Layout.ParseEntryIn | shoko/src/read.rs:30-52 | the record of `e` at `p` reads back as `e` and the position after it |
| Layout.ParseEntryBytes | shoko/src/read.rs:30-52 | `read_index_entry` inverts `write_index_entry`, whatever surrounds the record |
| Layout.IndexBytesSnoc | shoko/src/archive.rs:78-85 | the index grows by one record per loop iteration |
| Layout.ParseIndexAt | shoko/src/archive.rs:49-59 | reference definition of the index loop: `count` records read in turn from `p`, or the first error; its laws are ParseIndexOk and ParseIndexBytes |
| Layout.Opened | shoko/src/archive.rs:43-62 | reference definition of `open`: no entries without a valid footer, else the index loop from the footer's start; its laws are OpenedFinished, OpenedWithoutFooter and OpenedCutIndex |
| Layout.ParseIndexOk | shoko/src/archive.rs:51-58 | one successful record read followed by the rest of the index |
| Layout.ParseIndexBytes | shoko/src/archive.rs:48-60 | the index of a list reads back as the list |
| Layout.FooterInfoBytes | shoko/src/read.rs:54-77 | `get_footer_info` inverts `finalize` when the footer ends the file |
| Layout.OpenedFinished | shoko/src/archive.rs:35-63 | `open` of a file ending with an index and its footer finds exactly those entries |
| Layout.OpenedWithoutFooter | shoko/src/archive.rs:43-46 | a missing or invalid footer opens with no entries |
| Layout.OpenedCutIndex | shoko/src/archive.rs:48-60 | a valid footer with a non-zero count whose index starts at or past the end of the file is `UnexpectedEof`, not an empty archive |
| Entries.RemovePath | shoko/src/archive.rs:112 | `retain` keeps exactly the entries with other paths |
| Entries.Find | shoko/src/archive.rs:124-126 | `find` gives an entry with the path, and `None` exactly when there is none |
| Entries.Packed | shoko/src/archive.rs:139-147 | packing keeps the number of entries |
| Entries.RemoveAbsent | shoko/src/delete.rs:8-11 | the length is unchanged exactly when no entry has the path, and then the list is unchanged |
| Entries.RemoveOne | shoko/src/delete.rs:9 | under unique paths `retain` removes exactly the one entry with the path |
| Entries.RemoveUnique | shoko/src/delete.rs:9 | `retain` keeps paths unique |
| Entries.AppendUnique | shoko/src/archive.rs:112-118 | appending an entry with a new path keeps paths unique |
| Entries.FindUnique | shoko/src/archive.rs:124-126 | under unique paths `find` of entry `i`'s path is entry `i` |
| Entries.FindAppend | shoko/src/archive.rs:124-126 | `find` in a concatenation looks in the first part first |
| Entries.FindRemove | shoko/src/archive.rs:112 | `retain` of one path does not change `find` of another |
| Entries.FindReplaced | shoko/src/archive.rs:112-118 | after `retain` and `push`, `find` gives the new entry for its path and the old answer for others |
| Entries.RemoveStacked | shoko/src/delete.rs:9 | `retain` keeps blobs stacked in entry order |
| Entries.NextOffsetAtMost | shoko/src/archive.rs:96-103 | the maximum blob end is at most any bound on every blob end |
| Entries.NextOffsetAppend | shoko/src/archive.rs:113-118 | an entry placed at the next offset becomes the one ending last |
| Entries.AppendStacked | shoko/src/archive.rs:113-118 | appending at the next offset keeps blobs stacked |
| Entries.StackedSizes | shoko/src/archive.rs:66-73 | stacked blobs' sizes add up to at most the next offset past the header |
| Entries.ContiguousNext | shoko/src/archive.rs:139-147 | back-to-back blobs end at the header plus the total size |
| Entries.PackedContiguous | shoko/src/archive.rs:139-147 | packed blobs are back to back from offset 8 |
| Entries.PackedStacked | shoko/src/archive.rs:139-147 | packed blobs are stacked |
| Entries.PackedSnoc | shoko/src/archive.rs:139-147 | each round appends its entry at the end of the packed ones |
| Entries.RemoveIndexShorter | shoko/src/delete.rs:9 | each entry `retain` drops shortens the index by at least 21 bytes |
| ArchiveSpec.Extracted | shoko/src/archive.rs:123-130 | reference definition of `extract_file`: `NotFound` without an entry, else `read_blob` of the first entry with the path; its laws are WriteThenExtract, DeleteThenExtract and ExtractedSame |
| ArchiveSpec.DirectWrite | shoko/src/archive.rs:95-121 | reference definition of `write_file_direct`: the key error, or the sealed blob placed at the next offset with its entry replacing the path's; its laws are WriteEntries, WriteThenExtract, WriteKeepsOthers and WriteSound |
| ArchiveSpec.Deleted | shoko/src/delete.rs:7-18 | reference definition of `delete_file`: `NotFound` when `retain` keeps every entry, else the index rewritten; its laws are DeleteMissing, DeleteShrinks, DeleteOne and DeleteSound |
| ArchiveSpec.Defragged | shoko/src/archive.rs:132-168 | reference definition of `defrag`: the rebuilt copy and the entries read back from it; its law is DefragPacks |
| ArchiveSpec.Placed | shoko/src/archive.rs:105-120 | the state once a blob is stored at the next offset: the path's old entry dropped, the new entry pushed, the index rewritten; its laws are PlacedShape, PlacedFinds, PlacedOthers and PlacedSound |
| ArchiveSpec.LevelOf | shoko/src/archive.rs:140-143 | the level `defrag` rewrites a path at: that of the first entry with the path, 0 if none; RoundSteps is stated with it |
| ArchiveSpec.Round | shoko/src/archive.rs:140-146 | one `defrag` round: extract the path from the old archive, then `write_file_direct` it into the scratch archive, the first error ending it; its laws are RoundSteps and RoundNext |
| ArchiveSpec.Rebuilding | shoko/src/archive.rs:139-147 | the rounds from `k` on, stopping at the first error; its laws are RebuildingStep and RebuildingShape |
| ArchiveSpec.Rebuilt | shoko/src/archive.rs:135-148 | the scratch archive after every round from a file holding only the header; RebuiltReopens and RebuildingShape are stated about it |
| ArchiveSpec.Sound | shoko/src/archive.rs:95-168 | the archive invariant: header, unique paths, blobs stacked in entry order inside the file, each one readable; PlacedSound, WriteSound, DeleteSound and DefragPacks show every operation keeps it |
| ArchiveSpec.Rewritten | shoko/src/archive.rs:65-93 | the rewritten file ends right after index and footer, at the next offset plus their length |
| ArchiveSpec.RewrittenKeeps | shoko/src/archive.rs:88-91 | blobs before the index start read the same after `rewrite_index` |
| ArchiveSpec.SpliceKeeps | shoko/src/archive.rs:105-109 | a write at `p` keeps every blob ending by `p` |
| ArchiveSpec.RewrittenIdempotent | shoko/src/archive.rs:65-93 | `rewrite_index` twice equals once |
| ArchiveSpec.RewrittenFinished | shoko/src/archive.rs:87-91 | the rewritten file is the prefix up to the next offset, the index and the footer: the footer is the last 14 bytes |
| ArchiveSpec.RewrittenOpens | shoko/src/archive.rs:87-91 | the footer holds the next offset and `entries.len()`, and `open` reads back the same entries |
| ArchiveSpec.NextOffsetPastHeader | shoko/src/archive.rs:66-73 | the index start never overlaps the header |
| ArchiveSpec.WrittenNextOffset | shoko/src/archive.rs:112-118 | the entry `write_file_direct` appends is the one ending last |
| ArchiveSpec.PlacedKeeps | shoko/src/archive.rs:105-110 | placing a blob keeps the bytes of every old blob |
| ArchiveSpec.PlacedShape | shoko/src/archive.rs:95-121 | the blob lands at the old next offset, its entry is last and ends last, and the file ends with its index |
| ArchiveSpec.PlacedFinds | shoko/src/archive.rs:95-130 | the placed path extracts as its blob decodes |
| ArchiveSpec.PlacedOthers | shoko/src/archive.rs:112-118 | every other path extracts as before |
| ArchiveSpec.PlacedLaid | shoko/src/archive.rs:95-121 | placing keeps the header, unique paths and stacked blobs inside the file, and indexes the file |
| ArchiveSpec.PlacedStored | shoko/src/archive.rs:95-121 | placing a canonical blob keeps every blob readable and canonical |
| ArchiveSpec.PlacedSound | shoko/src/archive.rs:95-121 | placing a canonical blob keeps the archive invariant |
| ArchiveSpec.WriteThenExtract | shoko/src/archive.rs:95-130 | `extract_file` after `write_file_direct` returns the content written |
| ArchiveSpec.PlainWriteUnreadable | shoko/src/write.rs:14-26 | had `write_file_direct` used the non-encrypting writer, a file under 12 bytes at level 0 would extract as `InvalidData` |
| ArchiveSpec.WriteKeepsOthers | shoko/src/archive.rs:95-121 | `write_file_direct` leaves every other path's extraction as it was |
| ArchiveSpec.WriteEntries | shoko/src/archive.rs:112-118 | exactly one entry has the path, the last, with the data offset, written size and level; the others keep fields and order |
| ArchiveSpec.WriteSound | shoko/src/archive.rs:95-121 | `write_file_direct` keeps the archive invariant and leaves the file indexed |
| ArchiveSpec.DeleteMissing | shoko/src/delete.rs:8-16 | `delete_file` fails exactly when no entry has the path, with `NotFound` |
| ArchiveSpec.DeleteShrinks | shoko/src/delete.rs:8-11 | a successful delete strictly shortens the list, leaving exactly the entries with other paths |
| ArchiveSpec.DeleteSmaller | shoko/src/delete.rs:9-17 | a successful delete leaves a strictly shorter file, because its index record goes |
| ArchiveSpec.DeleteThenDefrag | target/package/shoko-0.1.1-rc1/src/test.rs:40-51 | `delete_file` then `defrag` succeeds, leaves a file strictly smaller than before the delete, and every other path extracts as before |
| ArchiveSpec.DeleteThenExtract | shoko/src/delete.rs:7-18 | after a delete the path extracts as `NotFound`, and deleting it again is `NotFound` |
| ArchiveSpec.DeleteOne | shoko/src/delete.rs:9-17 | under unique paths the one entry goes, the others keep their order, and the index is rewritten |
| ArchiveSpec.DeleteKeepsOthers | shoko/src/delete.rs:9-17 | other paths extract as before: blob bytes are not moved |
| ArchiveSpec.DeleteSound | shoko/src/delete.rs:7-18 | `delete_file` keeps the archive invariant and leaves the file indexed |
| ArchiveSpec.StoredKey | shoko/src/read.rs:21 | a blob that reads back was read with a usable key |
| ArchiveSpec.StoredExtract | shoko/src/archive.rs:123-130 | every entry of a sound archive extracts, and its size is its processed content plus 28 |
| ArchiveSpec.PackedNext | shoko/src/archive.rs:139-147 | each round appends the next packed entry |
| ArchiveSpec.ExtractedSame | shoko/src/archive.rs:123-130 | extraction depends only on the entry found and the bytes at its blob |
| ArchiveSpec.ReplacedAgrees | shoko/src/archive.rs:145-146 | after a round, the first `m + 1` paths extract from the copy as from the original |
| ArchiveSpec.PlacedKeepsAll | shoko/src/archive.rs:105-110 | placing a blob keeps every old blob inside the file |
| ArchiveSpec.PackedPlaced | shoko/src/archive.rs:139-147 | a round's blob placed after `m` rounds gives the state after `m + 1` rounds |
| ArchiveSpec.RoundNext | shoko/src/archive.rs:139-147 | on a sound archive every round succeeds and extends the packed copy by one entry |
| ArchiveSpec.RoundSteps | shoko/src/archive.rs:140-146 | a round is the extraction's error, or `write_file_direct` of the extracted content at the path's level |
| ArchiveSpec.RebuildingStep | shoko/src/archive.rs:139-147 | a failing round ends the rebuild with its error; a succeeding one continues from its result |
| ArchiveSpec.RebuildingShape | shoko/src/archive.rs:139-147 | from any round on a sound archive, the remaining rounds succeed and pack every entry |
| ArchiveSpec.RoundsStart | shoko/src/archive.rs:136 | the scratch archive starts as the header alone |
| ArchiveSpec.PackedExtract | shoko/src/archive.rs:139-147 | once every listed path extracts alike, every path does |
| ArchiveSpec.PackedSmaller | shoko/src/archive.rs:132-168 | the packed copy of a sound indexed archive is shorter than it by exactly the gaps between its blobs: no longer, strictly shorter with a gap, as long without one |
| ArchiveSpec.RebuiltReopens | shoko/src/archive.rs:156-165 | the scratch file's footer and index read back as the packed entries; the copy is shorter by exactly the gaps between the blobs |
| ArchiveSpec.DefragRebuilt | shoko/src/archive.rs:132-168 | `defrag` ends with the packed entries over a file shorter by exactly the gaps between the blobs, sound and indexed, every listed path extracting as before |
| ArchiveSpec.DefragPacks | shoko/src/archive.rs:132-168 | `defrag` succeeds, keeps paths, order, sizes and levels, packs blobs from offset 8, keeps every extraction, shrinks the file by exactly the gaps between the blobs (so never grows it, and keeps its size without a gap), and keeps the invariant |
| Archive.ParseIndexFails | shoko/src/archive.rs:52 | a failing record read fails the whole index read |
| Archive.ParseIndexStep | shoko/src/archive.rs:51-59 | a successful record read moves one entry into the entries read |
| Archive.RecordAppended | shoko/src/archive.rs:78-85 | writing the next record after the first `k` gives the first `k + 1` |
| Archive.RecordStep | shoko/src/archive.rs:78-85 | one loop iteration writes the next record and advances by its length |
| Archive.FooterAppended | shoko/src/archive.rs:88-91 | footer after index, then `set_len`, places index and footer at the start |
| Archive.RecordsDone | shoko/src/archive.rs:87-91 | the loop's records, the footer and `set_len` place the index and footer |
| Archive.IndexRewritten | shoko/src/archive.rs:65-93 | the loop, footer and `set_len` produce `Rewritten` |
| Archive.WriteRecords | shoko/src/archive.rs:78-85 | the index loop writes every record in order from the index start |
| Archive.ShokoArchive.Create | shoko/src/archive.rs:19-33 | a fresh file holding `"SHOKO001"`, no entries |
| Archive.ShokoArchive.FromParts | shoko/src/archive.rs:62 | the archive of a file and its entries |
| Archive.ShokoArchive.Open | shoko/src/archive.rs:35-63 | the file is unchanged and the entries are `Opened` of it, or its error |
| Archive.ShokoArchive.ReadIndex | shoko/src/archive.rs:48-60 | the seek and the loop return `count` records parsed from the index start, or the first error |
| Archive.ReadRecords | shoko/src/archive.rs:50-58 | `count` calls of `read_index_entry` give the records parsed from the reader's position, or the first error; the file is unchanged |
| Archive.ReadNext | shoko/src/archive.rs:51-57 | one pass: the record read is appended and the rest of the index is one record shorter, or its error is the error of the whole index |
| Archive.ShokoArchive.RewriteIndex | shoko/src/archive.rs:65-93 | the file becomes `Rewritten` of the old file and entries, cursor at its end |
| Archive.ShokoArchive.WriteFileDirect | shoko/src/archive.rs:95-121 | file and entries become `DirectWrite`; a key error changes nothing |
| Archive.ShokoArchive.ExtractFile | shoko/src/archive.rs:123-130 | returns `Extracted` of the file and entries, file unchanged |
| Archive.ShokoArchive.DeleteFile | shoko/src/delete.rs:7-18 | `NotFound` with nothing changed, or file and entries become `Deleted` |
| Archive.ShokoArchive.CopyRound | shoko/src/archive.rs:140-146 | one round: the scratch archive becomes `Round` of it, or the round's error |
| Archive.ShokoArchive.Rebuild | shoko/src/archive.rs:135-148 | the scratch archive is `Rebuilt`, or the first failing round's error |
| Archive.ShokoArchive.Defrag | shoko/src/archive.rs:132-168 | file and entries become `Defragged`; a failed round changes nothing |
| Shadow.Pushed | shoko/src/shadow.rs:17-23 | `push`: the overflow error with the contents unchanged on a full stack, else the value appended; its laws are PushBounded, PushThenPop and LastInFirstOut |
| Shadow.Popped | shoko/src/shadow.rs:25-27 | `pop`: `None` on an empty stack, else the top value and the rest; its laws are PushThenPop, PopAllAppended and LastInFirstOut |
| Shadow.PushBounded | shoko/src/shadow.rs:17-23 | a push keeps `len <= capacity` and fails, changing nothing, exactly when full |
| Shadow.PushThenPop | shoko/src/shadow.rs:17-27 | a pop after a successful push returns the value and restores the stack |
| Shadow.PushAllFits | shoko/src/shadow.rs:21-22 | pushes that fit append in order |
| Shadow.PopAllAppended | shoko/src/shadow.rs:25-27 | popping `n` values returns the last `n` pushed, newest first |
| Shadow.LastInFirstOut | shoko/src/shadow.rs:17-27 | pushing values that fit and popping as many returns them reversed and restores the stack |
| Shadow.ShadowStack.constructor | shoko/src/shadow.rs:10-15 | an empty stack with the given capacity |
| Shadow.ShadowStack.Push | shoko/src/shadow.rs:17-23 | overflow error with storage unchanged when full, else appends; keeps `len <= capacity` |
| Shadow.ShadowStack.Pop | shoko/src/shadow.rs:25-27 | removes and returns the top, or `None` when empty |
| Shadow.Allocated | shoko/src/shadow.rs:43-57 | `alloc`: `None` with the offset unchanged when the range does not fit, else the old offset and the offset moved past the range; its laws are AllocWithin and AllocDisjoint |
| Shadow.AllocWithin | shoko/src/shadow.rs:43-57 | `None` exactly when the range does not fit, offset unchanged; else the old offset, advanced by `size`; offset stays within the buffer |
| Shadow.AllocDisjoint | shoko/src/shadow.rs:48-55 | successive allocations lie inside the arena and never overlap |
| Shadow.SecureArena.WithCapacity | shoko/src/shadow.rs:36-41 | a buffer of `size` bytes, offset 0 |
| Shadow.SecureArena.Alloc | shoko/src/shadow.rs:43-57 | the result and new offset are `Allocated`; keeps `offset <= length` |
| Shadow.SecureArena.Reset | shoko/src/shadow.rs:59-63 | the offset is 0 again |

## Left out

- Encryption: AES-256-GCM (`aes_gcm`) is replaced by a keyed stand-in with the same framing: the nonce, a ciphertext as long as the plaintext, and a 16-byte tag. Kept exactly: the key checks and their error kinds, the 12-byte check, the 28-byte overhead and the round trip. Not kept: cryptographic strength; a wrong 32-byte key is not guaranteed to be rejected with `PermissionDenied`, although every key byte enters the tag.
- The random nonce (`rng().fill_bytes`) and the `SHOKO_KEY` environment variable are parameters.
- Operating-system I/O errors, `OpenOptions` and file paths are left out: every file operation succeeds except where the model says otherwise (`read_exact` past the end, a seek before the start).
- `defrag`'s scratch file `.shoko_defrag.tmp` is modelled as a second in-memory archive. `io::copy` is modelled as replacing the bytes. The failures of `File::open` and `remove_file` are not modelled.
- Archive.ShokoArchive.Defrag: when re-reading the index of the new file fails part way, the source leaves the entries read so far; the contract states only the file and the error in that case.
- Archive.ShokoArchive.Rebuild: `defrag` snapshots the paths before the loop; the model reads `entries[k].path`, which is the same because the loop does not change `entries`.
- Archive.ShokoArchive.WriteFileDirect / ArchiveSpec.DirectWrite: the archive uses the published encrypting writer of target/package/shoko-0.1.1-rc1/src/write.rs:15-29. With the writer of shoko/src/write.rs:14-26, which shoko/src/archive.rs imports, every blob it stores is unencrypted and cannot be read back (see Findings and ArchiveSpec.PlainWriteUnreadable).
- Layout.NextOffset: `offset + size` is an unbounded sum; the u64 overflow at shoko/src/archive.rs:70 is not modelled. The laws that reopen a file assume it stays below 2^64 bytes.
- ArchiveSpec.RewrittenOpens: assumes fewer than 2^32 entries and paths shorter than 2^32 bytes. Beyond that the `as u32` casts truncate; `Rewritten` models the truncated count, but the read-back law does not cover it.
- Paths are byte sequences: the lossy UTF-8 decoding of shoko/src/read.rs:37 is not modelled.
- `open` does not check the `"SHOKO001"` header, and neither does the model.
- Shadow.SecureArena.Alloc: offsets and sizes are unbounded naturals, so the `usize` overflow of `offset + size` is not modelled. The buffer bytes and the raw pointer are not modelled either; an allocation is its starting offset.
- Shadow.ShadowStack.Push: values are naturals, not `usize`.
- shoko/src/decompress.rs, which shoko/src/read.rs imports, is not part of this model. `read_blob` is modelled with the published decoder of target/package/shoko-0.1.1-rc1/src/decompress.rs.
- `glob.rs`, the `shokoutils` command-line tools, `mmem.rs` (mmap) and `metadata.rs` (wall clock) are not part of this model.

## Findings

| source | as written | input that shows it | evidently intended | confidence | as-written member | corrected member |
|---|---|---|---|---|---|---|
| shoko/src/write.rs:14-26 | `write_blob` writes the processed content unencrypted, but `read_blob` (shoko/src/read.rs:21) always decrypts, and `archive.rs` uses this writer | `write_file_direct("a", "hi", 0)` then `extract_file("a")`: the 2 stored bytes are shorter than a nonce, so decryption fails with `InvalidData` | `write_blob` encrypts after compressing, as the published writer in target/package/shoko-0.1.1-rc1/src/write.rs:15-29 does | not executed | Blob.PlainBlobUnreadable | Blob.BlobRoundTrip |
