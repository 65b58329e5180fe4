# WOFF to SFNT converter, modelled in Dafny

This project models `WoffToOtf.Converter`, CharacterMap's converter from a
WOFF 1.0 font container (W3C WOFF File Format 1.0) back to a plain SFNT
(TrueType/OpenType) font. It proves properties of that model.

The converter works like this:

- It reads the 44-byte WOFF header and then `tableCount` directory entries of
  20 bytes each.
- It drops every entry named `DSIG`, because a digital signature does not
  survive the conversion.
- It writes the 12-byte SFNT offset table: flavor, table count, searchRange,
  entrySelector and rangeShift.
- It writes one 16-byte table record per surviving table, in directory order.
  Each record holds the tag, the original checksum copied unchanged, the
  planned output offset and the original length.
- It then copies or inflates every table to its planned offset and pads it
  with zeros to the next multiple of 4.

Files:

- `wrappers.dfy`: `Option` and `Result`.
- `big_endian.dfy`: bytes, `u16`/`u32`, the big-endian codec, and a `Reader`
  class over the input bytes and a `Writer` class over a seekable memory
  stream. These are the source's `BEBinaryReader` and `BEBinaryWriter`.
- `woff.dfy`: the header and table-entry records, `Name`, header and
  directory parsing as functions and as reading methods, and the DSIG filter.
- `sfnt_layout.dfy`: the search fields, 4-byte alignment, the offset plan
  `PlanAt`, and the expected SFNT image `Image`, with lemmas about each.
- `converter.dfy`: the per-table transcoder, the whole conversion as a
  function (`ConvertSpec`), and the imperative `Convert` with its loops,
  proved equal to `ConvertSpec`.

The DEFLATE decoder is a parameter, `inflate: seq<byte> -> Option<seq<byte>>`.
It stands for raw inflation of the bytes that follow the 2-byte zlib header,
and `None` means the data is not valid DEFLATE. Each exception that a
malformed input raises becomes a value of `Converter.Error`: a header or
directory that ends early, a negative read count, a missing zlib header, an
invalid DEFLATE stream and a table of the wrong length. Failures of the
runtime itself (allocation, non-seekable streams) are listed under
"Left out".

In these corner cases the model follows the code:

- Every entry named `DSIG` is dropped, not just one (a well-formed font has
  at most one, since tags are unique).
- A table's stored bytes are read with `BinaryReader.ReadBytes`. Near the end
  of the input that call returns fewer bytes than asked for instead of failing.
  An uncompressed table that runs past the end therefore fails the length
  check (`TableLengthMismatch`), not a read error.
- A compressed length of 2^31 or more becomes negative when cast to `int`, so
  `ReadBytes` throws (`NegativeReadCount`).
- A compressed table shorter than 2 bytes makes `Slice(2)` throw
  (`TruncatedZlibHeader`).
- With zero surviving tables the source does not fail. It writes
  entrySelector 0xFFFF, because the 16-bit decrement wraps. It also writes a
  searchRange cast from `Math.Pow(2, 65535)`, which is infinite.
- With 4096 or more tables, `16 * 2^entrySelector` no longer fits 16 bits.

C# leaves an out-of-range double-to-`UInt16` cast unspecified. `SearchFields16`
follows the x64 runtimes before .NET 9: 0 in the first case and the value
modulo 2^16 in the second. From 1 to 4095 tables it is exactly the OpenType
definition (`SearchFieldsOf`).

## Model

| member | source | states |
|---|---|---|
| `BigEndian.DecodeU16` | CharacterMap/CharacterMap/Helpers/WoffToOtf.cs:40-42 | two bytes read most significant first: the first byte is the value's high digit in base 256, the second its low digit |
| `BigEndian.DecodeU32` | CharacterMap/CharacterMap/Helpers/WoffToOtf.cs:47-49 | four bytes read most significant first: byte k is the value's base-256 digit of weight 256^(3-k) |
| `BigEndian.U16Bytes` | CharacterMap/CharacterMap/Helpers/WoffToOtf.cs:62-64 | a u16 is written as 2 bytes that `DecodeU16` reads back as the same value |
| `BigEndian.U32Bytes` | CharacterMap/CharacterMap/Helpers/WoffToOtf.cs:69-71 | a u32 is written as 4 bytes (which byte is which is stated by `U32RoundTrip` and `U32DecodeRoundTrip`) |
| `BigEndian.U16DecodeRoundTrip` | CharacterMap/CharacterMap/Helpers/WoffToOtf.cs:38-43 | any 2 bytes read as a u16 and written back are the same 2 bytes |
| `BigEndian.U32RoundTrip` | CharacterMap/CharacterMap/Helpers/WoffToOtf.cs:67-72 | a u32 written big-endian is 4 bytes that decode back to the same value |
| `BigEndian.U32DecodeRoundTrip` | CharacterMap/CharacterMap/Helpers/WoffToOtf.cs:45-50 | any 4 bytes read as a u32 and written back are the same 4 bytes |
| `BigEndian.MostSignificantFirst` | CharacterMap/CharacterMap/Helpers/WoffToOtf.cs:60-72 | the most significant byte is written first (0x0102 gives 01 02; 0x01020304 gives 01 02 03 04) |
| `BigEndian.WrittenU16ReadsBack` | CharacterMap/CharacterMap/Helpers/WoffToOtf.cs:38-65 | a u16 written at any position of a stream is read back from that position unchanged |
| `BigEndian.WrittenU32ReadsBack` | CharacterMap/CharacterMap/Helpers/WoffToOtf.cs:45-72 | a u32 written at any position of a stream is read back from that position unchanged |
| `BigEndian.Slice` | CharacterMap/CharacterMap/Helpers/WoffToOtf.cs:202 | `ReadBytes` returns at most `count` bytes; exactly the stored range when it lies in the input; fewer only when the input ends first |
| `BigEndian.SliceAtEnd` | CharacterMap/CharacterMap/Helpers/WoffToOtf.cs:202 | a read that runs past the end of the input returns exactly the bytes from the position to the end, and none when the position is past the end |
| `BigEndian.U16At` | CharacterMap/CharacterMap/Helpers/WoffToOtf.cs:38-43 | reading a u16 succeeds exactly when two bytes remain |
| `BigEndian.U32At` | CharacterMap/CharacterMap/Helpers/WoffToOtf.cs:45-50 | reading a u32 succeeds exactly when four bytes remain |
| `BigEndian.Zeros` | CharacterMap/CharacterMap/Helpers/WoffToOtf.cs:223-224 | the padding buffer is `k` bytes, all zero |
| `BigEndian.Overwrite` | CharacterMap/CharacterMap/Helpers/WoffToOtf.cs:218-219 | writing at a position of a memory stream puts the bytes there, keeps the bytes before and after, and zero-fills any gap past the old end |
| `BigEndian.Reader.ReadBytes` | CharacterMap/CharacterMap/Helpers/WoffToOtf.cs:202 | a negative count fails; otherwise it returns the available bytes and advances the cursor past them |
| `BigEndian.Reader.ReadUInt16` | CharacterMap/CharacterMap/Helpers/WoffToOtf.cs:38-43 | returns the big-endian u16 at the cursor and advances by 2, or fails on a short read |
| `BigEndian.Reader.ReadUInt32` | CharacterMap/CharacterMap/Helpers/WoffToOtf.cs:45-50 | returns the big-endian u32 at the cursor and advances by 4, or fails on a short read |
| `BigEndian.Reader.Seek` | CharacterMap/CharacterMap/Helpers/WoffToOtf.cs:201 | the input cursor moves to the given absolute position |
| `BigEndian.Writer.Seek` | CharacterMap/CharacterMap/Helpers/WoffToOtf.cs:218 | the output cursor moves to the given absolute position; the contents are unchanged |
| `BigEndian.Writer.Write` | CharacterMap/CharacterMap/Helpers/WoffToOtf.cs:219 | the bytes are written at the cursor and the cursor moves past them |
| `BigEndian.Writer.WriteUInt16` | CharacterMap/CharacterMap/Helpers/WoffToOtf.cs:60-65 | the stream receives the value's two bytes, most significant first |
| `BigEndian.Writer.WriteUInt32` | CharacterMap/CharacterMap/Helpers/WoffToOtf.cs:67-72 | the stream receives the value's four bytes, most significant first |
| `Woff.Name` | CharacterMap/CharacterMap/Helpers/WoffToOtf.cs:107-116 | a tag's name is 4 characters, each below 256 |
| `Woff.NameIsTagBytes` | CharacterMap/CharacterMap/Helpers/WoffToOtf.cs:107-116 | a tag's name is 4 characters: its bytes, most significant first |
| `Woff.NameIsDsig` | CharacterMap/CharacterMap/Helpers/WoffToOtf.cs:107-116 | the name is "DSIG" if and only if the tag is 0x44534947 |
| `Woff.IsDsig` | CharacterMap/CharacterMap/Helpers/WoffToOtf.cs:157-158 | an entry is skipped as the signature exactly when its tag is 0x44534947 |
| `Woff.EncodeHeader` | CharacterMap/CharacterMap/Helpers/WoffToOtf.cs:125-140 | the WOFF header occupies exactly 44 bytes |
| `Woff.ParseHeader` | CharacterMap/CharacterMap/Helpers/WoffToOtf.cs:125-140 | the header parses exactly when the input holds at least 44 bytes |
| `Woff.HeaderRoundTrip` | CharacterMap/CharacterMap/Helpers/WoffToOtf.cs:125-140 | parsing an encoded header, whatever follows it, gives back all 13 fields |
| `Woff.EntryAt` | CharacterMap/CharacterMap/Helpers/WoffToOtf.cs:148-155 | a directory entry parses exactly when 20 bytes remain at its position |
| `Woff.EntryRoundTrip` | CharacterMap/CharacterMap/Helpers/WoffToOtf.cs:148-155 | parsing an encoded entry at its position gives back all 5 fields |
| `Woff.ParseDirectory` | CharacterMap/CharacterMap/Helpers/WoffToOtf.cs:146-155 | the directory holds `tableCount` entries, entry `i` at byte 44 + 20 i (a DSIG entry included); it fails exactly when the input ends before the last entry |
| `Woff.DropDsig` | CharacterMap/CharacterMap/Helpers/WoffToOtf.cs:157-160 | an entry survives if and only if it was in the input and is not named DSIG; no entries are added |
| `Woff.DropDsigAppend` | CharacterMap/CharacterMap/Helpers/WoffToOtf.cs:146-160 | filtering works piecewise over concatenation, so survivors keep their input order |
| `Woff.DropDsigKeepsOthers` | CharacterMap/CharacterMap/Helpers/WoffToOtf.cs:157-160 | a directory without DSIG entries passes through unchanged |
| `Woff.DropOneDsig` | CharacterMap/CharacterMap/Helpers/WoffToOtf.cs:157-165 | with exactly one DSIG entry, the survivors are the other entries in order and the count drops by one |
| `Woff.ReadHeader` | CharacterMap/CharacterMap/Helpers/WoffToOtf.cs:125-140 | reading the 13 fields in order yields `ParseHeader` of the input and leaves the cursor at byte 44 |
| `Woff.ReadEntry` | CharacterMap/CharacterMap/Helpers/WoffToOtf.cs:148-155 | reading 5 u32 fields yields the entry at the cursor and advances by 20 |
| `SfntLayout.FloorLog2` | CharacterMap/CharacterMap/Helpers/WoffToOtf.cs:167-172 | 2^e <= n < 2^(e+1) |
| `SfntLayout.FloorLog2Unique` | CharacterMap/CharacterMap/Helpers/WoffToOtf.cs:167-172 | every exponent that brackets `n` this way is `FloorLog2(n)` |
| `SfntLayout.EntrySelectorIsLargest` | CharacterMap/CharacterMap/Helpers/WoffToOtf.cs:167-172 | no exponent larger than entrySelector has 2^e <= n |
| `SfntLayout.SearchFieldsOf` | CharacterMap/CharacterMap/Helpers/WoffToOtf.cs:167-175 | for n >= 1: 2^entrySelector <= n < 2^(entrySelector+1); searchRange = 16 * 2^entrySelector; searchRange + rangeShift = 16 n; rangeShift < searchRange |
| `SfntLayout.SearchFieldsExamples` | CharacterMap/CharacterMap/Helpers/WoffToOtf.cs:167-175 | 1, 2, 3, 5, 16 and 17 tables give (16,0,0), (32,1,0), (32,1,16), (64,2,16), (256,4,0), (256,4,16) |
| `SfntLayout.SearchFields16` | CharacterMap/CharacterMap/Helpers/WoffToOtf.cs:165-175 | the written fields fit 16 bits; they are exact for 1 to 4095 tables; zero tables give entrySelector 0xFFFF with searchRange and rangeShift 0 |
| `SfntLayout.ComputeSearchFields` | CharacterMap/CharacterMap/Helpers/WoffToOtf.cs:167-175 | the count-up-then-step-back loop computes `SearchFields16(n)` |
| `SfntLayout.Align4` | CharacterMap/CharacterMap/Helpers/WoffToOtf.cs:194-195 | rounding up adds fewer than 4 bytes |
| `SfntLayout.Align4Is` | CharacterMap/CharacterMap/Helpers/WoffToOtf.cs:194-195 | rounding up equals the source's `x + (4 - x % 4)` when x is not a multiple of 4 and x otherwise, and always gives a multiple of 4 |
| `SfntLayout.DirectoryEnd` | CharacterMap/CharacterMap/Helpers/WoffToOtf.cs:142-161 | the first table's offset, 12 + 16 n, is a multiple of 4 |
| `SfntLayout.PlanAt` | CharacterMap/CharacterMap/Helpers/WoffToOtf.cs:189-195 | the running offset never falls below the first table's offset |
| `SfntLayout.PlanBounds` | CharacterMap/CharacterMap/Helpers/WoffToOtf.cs:191-195 | after i tables, the offset lies between the start plus their original lengths and that plus 3 i bytes of padding |
| `SfntLayout.PlanMonotone` | CharacterMap/CharacterMap/Helpers/WoffToOtf.cs:191-195 | offsets never decrease along the directory |
| `SfntLayout.OffsetStep` | CharacterMap/CharacterMap/Helpers/WoffToOtf.cs:191-195 | the next offset is at least this offset plus the table's original length and less than that plus 4, so every gap is under 4 bytes |
| `SfntLayout.OffsetsAligned` | CharacterMap/CharacterMap/Helpers/WoffToOtf.cs:191-195 | from an aligned start, every assigned offset and the end of the file are multiples of 4 |
| `SfntLayout.TablesDisjoint` | CharacterMap/CharacterMap/Helpers/WoffToOtf.cs:191-195 | a table ends no later than any later table starts, so tables never overlap |
| `SfntLayout.HeaderBytes` | CharacterMap/CharacterMap/Helpers/WoffToOtf.cs:178-182 | the offset table is 12 bytes |
| `SfntLayout.RecordBytes` | CharacterMap/CharacterMap/Helpers/WoffToOtf.cs:187-190 | a table record is 16 bytes |
| `SfntLayout.DirectoryUpTo` | CharacterMap/CharacterMap/Helpers/WoffToOtf.cs:185-191 | i records take 16 i bytes |
| `SfntLayout.DataUpTo` | CharacterMap/CharacterMap/Helpers/WoffToOtf.cs:199-226 | the data of the first i tables, padded, ends exactly at the planned offset after table i |
| `SfntLayout.Image` | CharacterMap/CharacterMap/Helpers/WoffToOtf.cs:177-226 | the file written for the survivors ends where the offset plan ends, at a multiple of 4 |
| `SfntLayout.ImageHeader` | CharacterMap/CharacterMap/Helpers/WoffToOtf.cs:178-182 | the offset table reads back as flavor, table count, searchRange, entrySelector and rangeShift |
| `SfntLayout.ImageRecord` | CharacterMap/CharacterMap/Helpers/WoffToOtf.cs:185-191 | record i, at byte 12 + 16 i, reads back as tag i, the original checksum unchanged, the planned offset i and the original length i |
| `SfntLayout.ImageTable` | CharacterMap/CharacterMap/Helpers/WoffToOtf.cs:215-219 | table i's bytes sit at its planned offset, byte for byte |
| `SfntLayout.ImagePadding` | CharacterMap/CharacterMap/Helpers/WoffToOtf.cs:220-225 | every byte between the end of table i and the next offset is zero |
| `Converter.AsInt32` | CharacterMap/CharacterMap/Helpers/WoffToOtf.cs:202 | the `(int)` cast agrees with the value modulo 2^32 and is negative exactly from 2^31 up |
| `Converter.Transcode` | CharacterMap/CharacterMap/Helpers/WoffToOtf.cs:201-216 | every table that transcodes has exactly its original length (which tables succeed, and with which error the others fail, is stated by the four lemmas below) |
| `Converter.TranscodeNegativeCount` | CharacterMap/CharacterMap/Helpers/WoffToOtf.cs:202 | the read throws exactly when the stored length is 2^31 or more |
| `Converter.TranscodeStored` | CharacterMap/CharacterMap/Helpers/WoffToOtf.cs:201-216 | with equal lengths the table is the stored input range, and it succeeds exactly when that range lies in the input |
| `Converter.TranscodeStoredPastEnd` | CharacterMap/CharacterMap/Helpers/WoffToOtf.cs:201-216 | an uncompressed table whose stored range runs past the end of the input is read short and fails with TableLengthMismatch |
| `Converter.TranscodeInflated` | CharacterMap/CharacterMap/Helpers/WoffToOtf.cs:204-216 | with different lengths: a success is `inflate` of the stored bytes after the first 2; TruncatedZlibHeader arises exactly when fewer than 2 bytes are stored; otherwise an invalid stream gives DecompressionFailure, an inflation of the original length succeeds with those bytes, and one of another length gives TableLengthMismatch |
| `Converter.TranscodeFirst` | CharacterMap/CharacterMap/Helpers/WoffToOtf.cs:199-216 | when the first n tables transcode, there are n payloads, each of its table's original length |
| `Converter.TranscodeFirstSuccess` | CharacterMap/CharacterMap/Helpers/WoffToOtf.cs:199-216 | on success, payload i is what table i transcodes to |
| `Converter.TranscodeFirstFailure` | CharacterMap/CharacterMap/Helpers/WoffToOtf.cs:199-216 | on failure, the error is that of a table before which every table transcodes: the first one that fails |
| `Converter.TranscodeFirstSucceeds` | CharacterMap/CharacterMap/Helpers/WoffToOtf.cs:199-216 | the first n tables transcode together if and only if each of them transcodes |
| `Converter.TranscodeFailureSticks` | CharacterMap/CharacterMap/Helpers/WoffToOtf.cs:199-216 | once a table fails, the conversion fails with its error however many tables follow |
| `Converter.Survivors` | CharacterMap/CharacterMap/Helpers/WoffToOtf.cs:125-165 | the directory parses exactly when the header and all entries fit the input; the survivors are the parsed directory filtered by `DropDsig` (so every non-DSIG entry survives, in order, and no DSIG entry does), no more than the header's count |
| `Converter.ConvertSpec` | CharacterMap/CharacterMap/Helpers/WoffToOtf.cs:118-230 | input shorter than the header fails with UnexpectedEndOfData; a converted file holds at least the offset table and has a length that is a multiple of 4 |
| `Converter.ConvertOutcome` | CharacterMap/CharacterMap/Helpers/WoffToOtf.cs:118-230 | a header or directory that runs past the input fails with UnexpectedEndOfData; otherwise the conversion succeeds if and only if every surviving table transcodes, and fails with the error of the first table that does not |
| `Converter.StoredTablesConvert` | CharacterMap/CharacterMap/Helpers/WoffToOtf.cs:118-230 | a font whose surviving tables are all stored uncompressed inside the input converts |
| `Converter.ReadSurvivors` | CharacterMap/CharacterMap/Helpers/WoffToOtf.cs:144-162 | the directory loop yields the parsed entries minus DSIG, or fails exactly when parsing fails; the running offset is 12 + 16 times the survivors |
| `Converter.TranscodeTable` | CharacterMap/CharacterMap/Helpers/WoffToOtf.cs:201-216 | the seek, read, inflate and length check compute `Transcode` |
| `Converter.AdvanceOffset` | CharacterMap/CharacterMap/Helpers/WoffToOtf.cs:193-195 | the 32-bit offset update gives a multiple of 4, and equals the planned next offset when that fits 32 bits |
| `Converter.WriteRecord` | CharacterMap/CharacterMap/Helpers/WoffToOtf.cs:187-190 | appends the 16-byte record: tag, checksum, offset, length |
| `Converter.WriteDirectory` | CharacterMap/CharacterMap/Helpers/WoffToOtf.cs:184-196 | appends the records of all survivors with their planned offsets, and returns each table's output offset |
| `Converter.WriteTable` | CharacterMap/CharacterMap/Helpers/WoffToOtf.cs:218-225 | writes the table at its output offset, followed by zeros up to the next multiple of 4 |
| `Converter.PlaceTable` | CharacterMap/CharacterMap/Helpers/WoffToOtf.cs:218-225 | writing one transcoded table and its padding extends the data region by exactly that table's slot |
| `Converter.WriteTables` | CharacterMap/CharacterMap/Helpers/WoffToOtf.cs:198-226 | the payload loop fails exactly when `TranscodeFirst` fails, with the same error; otherwise it appends the padded data region |
| `Converter.Convert` | CharacterMap/CharacterMap/Helpers/WoffToOtf.cs:118-230 | the conversion fails exactly when `ConvertSpec` fails, with the same error; otherwise the output stream holds exactly `ConvertSpec`'s file |
| `Converter.ConvertedHeader` | CharacterMap/CharacterMap/Helpers/WoffToOtf.cs:177-182 | a converted file begins with the WOFF flavor, the number of surviving tables and the search fields for that number |
| `Converter.ConvertedRecord` | CharacterMap/CharacterMap/Helpers/WoffToOtf.cs:184-191 | record i of a converted file is surviving entry i's tag, its original checksum unchanged, its planned offset (a multiple of 4) and its original length |
| `Converter.NoDsigInOutput` | CharacterMap/CharacterMap/Helpers/WoffToOtf.cs:157-190 | no table record of a converted file carries the DSIG tag |
| `Converter.StoredTableCopied` | CharacterMap/CharacterMap/Helpers/WoffToOtf.cs:204-219 | an uncompressed table's bytes at its output offset are the input bytes at its stored offset |
| `Converter.InflatedTablePlaced` | CharacterMap/CharacterMap/Helpers/WoffToOtf.cs:204-219 | a compressed table's bytes at its output offset are the inflation of its stored bytes minus the 2-byte zlib header |

## Left out

- DEFLATE decoding (`DeflateStream`) is a foreign library call. It is the parameter `inflate`, and nothing about inflation is proved.
- Stream ownership, `using` disposal and `Flush` are I/O plumbing and are not modelled.
- `TableDirectory.ToString` is a debugging aid built on `Name`. It is not modelled separately.
- Convert: the model assumes that the output stream starts empty at position 0; `Convert(Stream, Stream)` itself accepts any stream. The output left behind by a failed conversion is not specified.
- Convert: the model requires the planned file to stay under 4 GiB (`PlanFits`). The source's 32-bit running offset would wrap past that, and the wrapped layout is not modelled.
- SearchFields16: the values for zero tables and for 4096 or more tables come from a double-to-`UInt16` cast that C# leaves unspecified. The model fixes one runtime's result (see above).
- The header fields other than flavor and tableCount (signature, length, reserved, totalSfntSize, versions, metadata and private blocks) are parsed, but not validated or used, just as in the source.
- `Math.Pow` is floating point. The model uses exact integer powers of two, which equal it for every exponent from 0 to 16. With zero tables the exponent is 65535 and `Math.Pow` gives infinity; that case is covered by SearchFields16's fixed values.
- `ReadBytes` allocates a buffer of the requested size before reading (line 202), so a stored length near 2^31 on a short input may throw OutOfMemoryException; the model returns the bytes that are present.
- The input `Seek` calls (lines 201 and 218) throw on a stream that cannot seek, and a memory stream refuses positions beyond 2^31 - 1. The model's input is a byte sequence and its output a memory stream that grows as needed, so these faults are not modelled.
- U32Bytes: its contract states only the length. The byte order is stated by the lemmas `U32RoundTrip` and `U32DecodeRoundTrip`, because the round trip stated on the function itself makes the record-writing proofs too costly for the verifier.
