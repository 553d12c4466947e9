# EBML codec and Matroska Segment-Info updater

This project models the core of EbmlSharp/MatroskaSharp, a library that reads and writes EBML (Extensible Binary Meta Language, RFC 8794) files such as Matroska. It has four parts.

- **VInt codec** (`VIntCodec`, `VIntVectors`). An EBML variable-size integer is a marker bit at position 7·L followed by the value, in L big-endian bytes, with 1 ≤ L ≤ 8 (sections 4 to 6 of RFC 8794). The module models these operations:
  - `EncodeSize(v)`: the minimal length;
  - `EncodeSize(v, L)`: a forced length;
  - `UnknownSize(L)`: the reserved all-ones sentinel;
  - `FromEncoded`: decoding from the raw marker-bit form;
  - `IsValidIdentifier`;
  - `DecodeAt`: reading a VInt out of a byte sequence.

  `VIntVectors` derives every concrete vector of the library's VInt tests from the general definitions.
- **Elements, reader and writer** (`Elements`, `Payload`, `Utf8`, `EbmlReader`, `EbmlWriter`, `RoundTrip`).
  - An element is an identifier VInt, a size VInt and a payload, and a file is the concatenation of its top-level elements.
  - Payloads can be:
    - unsigned 64-bit integers, as plain big-endian bytes of minimal width;
    - signed 64-bit integers, in big-endian two's complement of minimal width;
    - dates, as a signed nanosecond offset from 2001-01-01 (section 7.6 of RFC 8794), always 8 bytes;
    - UTF-8 text.
  - The reader is a cursor over the bytes plus a stack of scope end offsets. It supports `ReadNext`, the typed reads, `EnterContainer` and `LeaveContainer`.
  - The writer appends elements. Its master elements reserve an 8-byte size field, and an explicit close step backpatches that field.
  - `RoundTrip` states the writer/reader round trips that the library's writer tests exercise.
- **LocateElement** (`ReaderExtensions`): a first-match linear search over the siblings left at the reader's current level.
- **SegmentInfoUpdater** (`SegmentInfoUpdater`):
  - `Open` parses a file, finds the first Segment, then the first Info inside it, and reads its Title, WritingApp and MuxingApp.
  - `Write` re-emits Info in place. It takes the room Info needs from a Void filler adjacent to Info, so that no byte outside the Info+Void pair changes.
  - The update is modelled as a rewrite of the Segment's child list.

Bytes are `seq<byte>` with `byte = x: int | 0 <= x < 256`. Streams are byte sequences with an index, and every operation is a pure function that returns a `Result` carrying the library's error kinds.

## Model

| member | source | states |
|---|---|---|
| VIntCodec.EncodeSize | EbmlSharp.Test/VIntTests.cs:33-46 | The result exists iff v < 2^56−1. It keeps v as its value and is never reserved. Every shorter length k would need v ≥ 2^(7k)−1, so the chosen length is the smallest one whose all-ones pattern lies above v. |
| VIntCodec.EncodeSizeWithLength | EbmlSharp.Test/VIntTests.cs:48-73 | The result exists iff 1 ≤ L ≤ 8 and v < 2^(7L)−1. It keeps exactly the requested length L, even when L is longer than needed. A value too large for L is an ArgumentError, and a length outside 1..8 is OutOfRange. |
| VIntCodec.UnknownSize | EbmlSharp.Test/VIntTests.cs:75-109 | For L in 1..8 the result has length L, is reserved, and has raw value 2^(7L+1)−1. Any other L is OutOfRange. |
| VIntCodec.FromEncoded | EbmlSharp.Test/VIntTests.cs:111-133 | Whatever it accepts is a well-formed VInt whose raw marker-bit form is the input. A rejection is an ArgumentError. |
| VIntCodec.FromEncodedAccepts | EbmlSharp.Test/VIntTests.cs:111-121 | Every input whose highest set bit is at position 7L, for 1 ≤ L ≤ 8, is accepted as the length-L VInt with the marker stripped. |
| VIntCodec.FromEncodedRoundTrip | EbmlSharp.Test/VIntTests.cs:111-133 | FromEncoded inverts the raw encoding of every well-formed VInt, and that encoding fits in 64 bits. |
| VIntCodec.ValidIdentifierIsMinimalEncoding | EbmlSharp.Test/VIntTests.cs:150-159 | A VInt is a valid identifier iff it is exactly what EncodeSize produces for its value, that is, minimal and not all-ones. Both directions are proved. |
| VIntCodec.IsValidIdentifier | EbmlSharp.Test/VIntTests.cs:150-159 | A valid identifier is a well-formed, non-reserved VInt that FromEncoded recovers from its own raw marker-bit form, the way the tests obtain the identifiers they check. |
| VIntCodec.DecodeAtBytes | EbmlSharp.Test/EbmlWriterTests.cs:45-53 | The bytes of any well-formed VInt, wherever they sit in a buffer, decode back to that VInt and consume exactly its length. |
| VIntCodec.DecodeAtSlice | EbmlSharp.Test/EbmlWriterTests.cs:45-53 | Conversely, the bytes DecodeAt consumes are exactly the encoding of the VInt it returns. |
| VIntCodec.DecodeAtFromEncoded | EbmlSharp.Test/VIntTests.cs:111-121 | Reading a VInt out of a buffer agrees with FromEncoded applied to the same bytes taken as one big-endian number. |
| VIntCodec.DecodeAt | EbmlSharp.Test/EbmlWriterTests.cs:45-53 | Reading a VInt at p succeeds iff the first byte is non-zero and the length its leading zeros announce ends before the limit. The VInt has that length, the next position is just past it, and any failure is a FormatError. |
| VIntVectors.EncodeSizeVectors | EbmlSharp.Test/VIntTests.cs:33-46 | Proves the minimal-length vectors of the library's tests: 0→0x80, 1→0x81, 126→0xFE, 127→0x407F, 128→0x4080 and 0xDEFFAD→0x10DEFFAD. |
| VIntVectors.SizeOrIdVectors | EbmlSharp.Test/VIntTests.cs:135-148 | Proves that 0 and 126 get length 1, 127 and 128 get length 2, 0xFFFF gets length 3 and 0xFFFFFF gets length 4, each keeping its value and not reserved. |
| VIntVectors.EncodeSizeWithLengthVectors | EbmlSharp.Test/VIntTests.cs:48-73 | Proves the forced-length vectors: (0,1..4) → 0x80, 0x4000, 0x200000 and 0x10000000, and (127,2) → 0x407F. (127, 1) is an ArgumentError. |
| VIntVectors.UnknownSizeVectors | EbmlSharp.Test/VIntTests.cs:75-109 | Proves the eight reserved patterns 0xFF … 0x1FFFFFFFFFFFFFF, and OutOfRange for lengths −1, 0 and 9. |
| VIntVectors.FromEncodedVectors | EbmlSharp.Test/VIntTests.cs:111-121 | Proves 0x80→(1,0), 0xAF→(1,0x2F), 0x40FF→(2,0xFF), 0x2000FF→(3,0xFF), 0x100000FF→(4,0xFF) and 0x1F1020FF→(4,0xF1020FF). |
| VIntVectors.FromEncodedRejects | EbmlSharp.Test/VIntTests.cs:123-133 | Proves that 0, 1, 0x40, 0x20, 0x10 and 0x8000 are rejected with an ArgumentError. |
| VIntVectors.ValidIdentifierVectors | EbmlSharp.Test/VIntTests.cs:150-159 | Proves that 0x80 and 0x81 are valid identifiers. |
| VIntVectors.InvalidIdentifierVectors | EbmlSharp.Test/VIntTests.cs:150-159 | Proves that 0x4001 (not minimal), 0xFF and 0x7FFF (all ones) are not valid identifiers. |
| Payload.EncodeUInt | EbmlSharp.Test/EbmlWriterTests.cs:71-84 | The payload has at most 8 bytes and reads as u in big-endian. It is the shortest such payload: an n-byte payload means u ≥ 256^(n−1), so 0 is written as no bytes. |
| Payload.DecodeUInt | EbmlSharp.Test/EbmlWriterTests.cs:71-84 | A payload decodes iff it has at most 8 bytes, and then to its zero-extended big-endian value. A wider one is a FormatError. |
| Payload.EncodeInt | EbmlSharp.Test/EbmlWriterTests.cs:56-69 | The payload has at most 8 bytes and holds i in two's complement. It is the shortest such payload: one byte fewer could not represent i. |
| Payload.DecodeInt | EbmlSharp.Test/EbmlWriterTests.cs:56-69 | A payload decodes iff it has at most 8 bytes, and then to its big-endian number sign-extended from its width. So the value fits that width, and its two's-complement form at that width is the payload's number. A wider one is a FormatError. |
| Payload.EncodeDate | EbmlSharp.Test/EbmlWriterTests.cs:86-95 | A date payload is always exactly 8 bytes. |
| Payload.DecodeDate | EbmlSharp.Test/EbmlWriterTests.cs:86-95 | A payload decodes iff it is empty or 8 bytes wide. An empty one is the 2001-01-01 epoch, and any other width is a FormatError. |
| Payload.UIntRoundTrip | EbmlSharp.Test/EbmlWriterTests.cs:71-84 | Every unsigned 64-bit value, 0 and UInt64.MaxValue included, decodes back from its payload. |
| Payload.IntRoundTrip | EbmlSharp.Test/EbmlWriterTests.cs:56-69 | Every signed 64-bit value, −1, Int64.MinValue and Int64.MaxValue included, decodes back from its two's-complement payload. |
| Payload.DateRoundTrip | EbmlSharp.Test/EbmlWriterTests.cs:86-95 | A tick offset whose ×100 nanosecond value fits in 64 bits decodes back to the same ticks, for dates before and after 2001-01-01. |
| Utf8.RoundTrip | EbmlSharp.Test/EbmlWriterTests.cs:133-144 | Decoding the UTF-8 encoding of any string, the empty string and multi-byte code points included, returns that string. |
| Utf8.Decode | EbmlSharp.Test/EbmlWriterTests.cs:133-144 | Whatever Decode accepts re-encodes to exactly the input bytes. Invalid UTF-8 is a FormatError. |
| Utf8.Encode | EbmlSharp.Test/EbmlWriterTests.cs:133-144 | Every character takes one to four bytes, so the encoding has at least as many bytes as the string has characters and at most four times as many. The empty string encodes to nothing. |
| EbmlReader.ReadNext | EbmlSharp.Test/EbmlWriterTests.cs:45-53 | Any unread payload is skipped first. The result is false iff the cursor is at the end of the current level, and the reader is then exhausted. Otherwise the header at the cursor must decode inside the level, and the reader stands on its pending payload. A header that does not decode is a FormatError. The stream and the scope stack never change. |
| EbmlReader.EnterContainer | EbmlSharp.Test/EbmlWriterTests.cs:174-182 | Succeeds iff a payload is pending. It pushes the payload's end as the new level's limit and puts the cursor at the payload's start. With no pending payload it is an InvalidOperation. |
| EbmlReader.LeaveContainer | EbmlSharp.Test/EbmlWriterTests.cs:184-187 | Succeeds iff a level is open. It pops that level and stands at its end, whatever was read inside, and the enclosing level's limit applies again. With no open level it is an InvalidOperation. |
| EbmlReader.ReadUInt | EbmlSharp.Test/EbmlWriterTests.cs:71-84 | Succeeds iff a payload is pending and is at most 8 bytes wide. The value is the big-endian number of the unread payload, and the cursor ends after the payload. With nothing pending it is an InvalidOperation, and a wider payload is a FormatError. |
| EbmlReader.ReadInt | EbmlSharp.Test/EbmlWriterTests.cs:56-69 | Succeeds and fails exactly as ReadUInt does. The value fits the payload's width, and its two's-complement form at that width is the payload's number. |
| EbmlReader.ReadDate | EbmlSharp.Test/EbmlWriterTests.cs:86-95 | Succeeds iff a payload is pending and is empty or 8 bytes wide. An empty payload reads as the epoch, and the value is the payload decoded as a date. Errors are as for ReadUInt. |
| EbmlReader.ReadUtf | EbmlSharp.Test/EbmlWriterTests.cs:133-144 | Succeeds iff a payload is pending and is valid UTF-8, and the text re-encodes to exactly the unread payload. Bytes that are not UTF-8 are a FormatError; with nothing pending it is an InvalidOperation. |
| EbmlReader.ReadAllConsumes | EbmlSharp.Test/EbmlWriterTests.cs:159-182 | Whatever sibling list the reader accepts on a level is well formed, and its encoding is exactly the bytes of that level. |
| EbmlReader.ReadAllEncoded | EbmlSharp.Test/EbmlWriterTests.cs:159-182 | On a level that holds the encoding of a sibling list, reading every sibling returns that list, in written order. |
| EbmlReader.ParseRoundTrip | EbmlSharp.Test/EbmlWriterTests.cs:159-182 | Parsing the encoding of any well-formed element list returns the list. |
| EbmlReader.ParseExact | EbmlSharp.Test/EbmlWriterTests.cs:159-182 | A successful parse accounts for every byte: re-encoding its result gives the input back. |
| EbmlReader.EnterReadsChildren | EbmlSharp.Test/EbmlWriterTests.cs:174-182 | An element whose payload encodes a child list can be entered as a container, and its children read back in order. |
| EbmlReader.LeaveThenNext | EbmlSharp.Test/EbmlWriterTests.cs:184-187 | LeaveContainer puts the cursor at the container's end, whatever was read inside it. The next ReadNext then reports the following sibling, with its identifier, size and payload. |
| EbmlReader.ReadUtfText | EbmlSharp.Test/EbmlWriterTests.cs:133-144 | On an element whose payload is the UTF-8 encoding of s, ReadUtf returns s and marks the payload consumed. |
| EbmlWriter.WriteUtf | EbmlSharp.Test/EbmlWriterTests.cs:146-157 | A null string is an ArgumentNull error. Otherwise the string is written as one element holding its UTF-8 bytes. |
| EbmlWriter.WriteUInt | EbmlSharp.Test/EbmlWriterTests.cs:71-84 | Never fails and opens no master. It appends one element whose payload is the shortest big-endian form of u, and that payload reads back as u. |
| EbmlWriter.WriteInt | EbmlSharp.Test/EbmlWriterTests.cs:56-69 | Never fails and opens no master. It appends one element whose payload is the shortest two's-complement form of i, and that payload reads back as i. |
| EbmlWriter.WriteDate | EbmlSharp.Test/EbmlWriterTests.cs:86-95 | Never fails and opens no master. It appends one element with an 8-byte payload, which reads back as the same date whenever its nanosecond count fits in 64 bits. |
| EbmlWriter.StartMaster | MatroskaSharp.Test/SegmentInfoReaderTests.cs:39-51 | Appends the identifier and an 8-byte reserved size, and pushes the offset of that size field for the later backpatch. |
| EbmlWriter.Write | EbmlSharp.Test/EbmlWriterTests.cs:45-53 | Writing appends exactly one element with the given identifier and payload, and fails with OutOfRange iff the payload does not fit an 8-byte size. |
| EbmlWriter.CloseMaster | MatroskaSharp.Test/SegmentInfoReaderTests.cs:39-51 | Closing a master changes only its reserved 8-byte size field and keeps the output's length. Closing with no open master is an InvalidOperation. |
| EbmlWriter.MasterBackpatch | MatroskaSharp.Test/SegmentInfoReaderTests.cs:39-51 | Starting a master, writing its body and closing it leaves exactly one element: the identifier, an 8-byte size equal to the body's length, and the body. |
| RoundTrip.ReadBack | EbmlSharp.Test/EbmlWriterTests.cs:45-53 | A written element reads back with ReadNext true and the written identifier, and reading its payload leaves the cursor at the end of the stream. |
| RoundTrip.ReadWriteInt64 | EbmlSharp.Test/EbmlWriterTests.cs:56-69 | WriteInt, then ReadNext and ReadInt, returns every 64-bit value under the written identifier. |
| RoundTrip.ReadWriteUInt64 | EbmlSharp.Test/EbmlWriterTests.cs:71-84 | WriteUInt, then ReadNext and ReadUInt, returns every unsigned 64-bit value and leaves the cursor at the end of the stream. |
| RoundTrip.ReadWriteDate | EbmlSharp.Test/EbmlWriterTests.cs:86-95 | WriteDate, then ReadNext and ReadDate, returns the tick offset, including the ±long.MaxValue/100 extremes. |
| RoundTrip.ReadWriteStringUtf | EbmlSharp.Test/EbmlWriterTests.cs:133-144 | WriteUtf, then ReadNext and ReadUtf, returns the string. |
| RoundTrip.ReadWriteContainer | EbmlSharp.Test/EbmlWriterTests.cs:159-182 | A binary element whose payload is encoded children reads as the first element and can be entered. Its children read back, in order, with their values. |
| RoundTrip.ReadWriteContainerSibling | EbmlSharp.Test/EbmlWriterTests.cs:184-187 | After the container's children are read, LeaveContainer stands at the container's end. ReadNext then yields the sibling written after it, and ReadUtf returns that sibling's text. |
| ReaderExtensions.LocateElement | MatroskaSharp/ReaderExtensions.cs:7-19 | On `true`, the reader sits on an element with the target identifier, reached by ReadNext calls that skipped only other identifiers. `false` happens iff the level ends with no sibling carrying that identifier, and the cursor is then at the level's end. A failing ReadNext fails the search. The cursor only moves forward, and the scope stack never changes. |
| ReaderExtensions.SiblingIdsEncoded | MatroskaSharp/ReaderExtensions.cs:9-18 | On a level that holds the encoding of a sibling list, successive ReadNext calls report exactly the siblings' identifiers, in order. |
| ReaderExtensions.PathPrefix | MatroskaSharp/ReaderExtensions.cs:9-16 | Every walk of ReadNext calls reports a prefix of the level's identifiers. So the element LocateElement stops on is the first one with the target identifier. |
| SegmentInfoUpdater.FirstIndex | MatroskaSharp/ReaderExtensions.cs:9-16 | Returns the first position with the identifier, or none iff no element has it. |
| SegmentInfoUpdater.Open | MatroskaSharp.Test/SegmentInfoReaderTests.cs:33-59 | A successful open yields a consistent snapshot whose elements re-encode to the file. Title, WritingApp and MuxingApp are the texts of Info's fields. A file without a Segment, or whose Segment has no Info, is a structural error. |
| SegmentInfoUpdater.OpenEncoded | MatroskaSharp.Test/SegmentInfoReaderTests.cs:39-59 | Opening the encoding of any consistent snapshot recovers that snapshot, tolerating other siblings in the Segment. |
| SegmentInfoUpdater.FieldText | MatroskaSharp.Test/SegmentInfoReaderTests.cs:53-59 | A field reads as the text whose UTF-8 encoding is the payload of the last element with that identifier. An absent field reads as the empty text, and bytes that are not UTF-8 are a FormatError. |
| SegmentInfoUpdater.SetText | MatroskaSharp.Test/SegmentInfoReaderTests.cs:85-88 | Replaces the last element with the identifier by one holding the text's UTF-8 bytes, and leaves every other element where it was. An absent field is added in front. A text too long for an 8-byte size is OutOfRange. |
| SegmentInfoUpdater.NewFields | MatroskaSharp.Test/SegmentInfoReaderTests.cs:85-88 | Succeeds iff all three texts fit an 8-byte size, and is otherwise OutOfRange. The resulting children are well formed, and Title, WritingApp and MuxingApp read back as the snapshot's texts. |
| SegmentInfoUpdater.SetTextFields | MatroskaSharp.Test/SegmentInfoReaderTests.cs:85-88 | After a field is set it reads back as the new text, and every other field of Info reads as before. |
| SegmentInfoUpdater.AdjacentFiller | MatroskaSharp.Test/SegmentInfoReaderTests.cs:63-164 | The filler is a Void directly after or before Info, the following one preferred. None means neither neighbour is a Void. |
| SegmentInfoUpdater.Refill | MatroskaSharp.Test/SegmentInfoReaderTests.cs:78 | A re-sized filler keeps its identifier and size width and holds n zero bytes. It exists iff n fits that width. |
| SegmentInfoUpdater.Place | MatroskaSharp.Test/SegmentInfoReaderTests.cs:98-111 | The new Info starts the old room, followed by a zeroed Void of the old filler's size width. Together they take exactly the bytes Info and filler took before. |
| SegmentInfoUpdater.NewInfo | MatroskaSharp.Test/SegmentInfoReaderTests.cs:98-104 | The rewritten Info keeps Info's identifier and size width, and its payload encodes the new fields. |
| SegmentInfoUpdater.Update | MatroskaSharp.Test/SegmentInfoReaderTests.cs:85-111 | The updated snapshot is consistent and holds the set texts. Segment keeps its place, identifier and size field, children outside the room are unchanged, and Info is followed by a Void when there was a filler. |
| SegmentInfoUpdater.UpdateOutcome | MatroskaSharp.Test/SegmentInfoReaderTests.cs:85-111 | The update succeeds iff the three texts can be stored and the rewritten Info fits the room. It fits when its payload length still fits the old size width, and either there is no filler and Info keeps the room's exact length, or the bytes left over make a Void with the old filler's identifier and size width. A text too long is OutOfRange; an Info that does not fit is a CapacityError. |
| SegmentInfoUpdater.FillerAbsorbsGrowth | MatroskaSharp.Test/SegmentInfoReaderTests.cs:63-164 | If Info's new payload still fits its size width and Info grows by at most the adjacent Void's payload, Write succeeds and the file keeps its length. This is the 500-character Title against a 1000-byte Void in both filler tests. |
| SegmentInfoUpdater.FillerTooSmall | MatroskaSharp.Test/SegmentInfoReaderTests.cs:78 | If the rewritten Info needs more bytes than Info and its Void's payload together provide, Write fails with a CapacityError. |
| SegmentInfoUpdater.Write | MatroskaSharp.Test/SegmentInfoReaderTests.cs:94-96 | The file Write produces has the same length as the original, and every byte outside the room of Info and its filler is unchanged. This covers the element before Segment and the marker after the room. |
| SegmentInfoUpdater.RebuiltInPlace | MatroskaSharp.Test/SegmentInfoReaderTests.cs:106-111 | Any rewrite that keeps everything outside the room and keeps the room's length changes the file only inside the room. |
| SegmentInfoUpdater.WriteThenOpen | MatroskaSharp.Test/SegmentInfoReaderTests.cs:90-111 | Re-opening the written file gives the updated snapshot, with the Title, WritingApp and MuxingApp that were set. |
| SegmentInfoUpdater.InfoHoldsTitle | MatroskaSharp.Test/SegmentInfoReaderTests.cs:102-104 | The written Info declares a size larger than the Title's UTF-8 length, and so larger than its character count: a 500-character Title gives a size > 500. |

## Left out

- Float and double payloads, and Info's Duration field: these are floating-point numerics.
- MatroskaSharp.Test/MediaFileTests.cs: file copying, a sample media file, and console dumping.
- Stream seeking and position mechanics: a stream is a byte sequence with an index.
- Calendar conversion of `DateTime`: a date is a signed tick offset (100 ns) from 2001-01-01. The nanosecond value wraps modulo 2^64, and reading truncates toward zero on division by 100.
- The Matroska and EBML schema catalog: Segment, Info, Title, WritingApp, MuxingApp and Void are fixed identifier constants.
- `using`/dispose scoping of master elements: the size backpatch is the explicit step `CloseMaster`.
- The implementation files of `VInt`, `EbmlReader`, `EbmlWriter` and `SegmentInfoUpdater` are not part of this model. Their behaviour is modelled from the library's tests, which pin down vectors and outcomes. Where the tests are silent, the model makes a choice, and the lines below name each one.
- Error kinds follow the exception types the tests expect: `FromEncoded` rejects with an ArgumentError (EbmlSharp.Test/VIntTests.cs:123-133).
- Leading filler: the new Info always starts the room and the filler follows it, so a Void that stood before Info ends up after it. This is the order the tests read back, Info then Void (MatroskaSharp.Test/SegmentInfoReaderTests.cs:154-159).
- SegmentInfoUpdater.AdjacentFiller: when Info has a Void on both sides, the following one is used. The tests place only one Void, so this preference is a choice of this model.
- SegmentInfoUpdater.SetText: a field Info lacks is added in front of its children. Write therefore adds empty WritingApp and MuxingApp elements to an Info that held only a Title, as in the filler tests. Where the library puts new fields, and whether it writes empty ones, is not visible.
- SegmentInfoUpdater.Place: a missing filler, a filler too small, and a shrinking Info are not exercised by the library. The model's CapacityError for the first two, and its re-grown filler for the third, are choices of this model, not claims about the library.
- SegmentInfoUpdater.Open: parses every level it walks completely, rather than stopping once Info and its filler are found. A file with a malformed element after Info is therefore rejected here.
- SegmentInfoUpdater.NewInfo: keeps the old Info's size-field width, so an Info that outgrows that width is a CapacityError. The library's own size-width policy is not visible.
- EbmlWriter.Write: any well-formed identifier VInt is accepted, including reserved and non-minimal ones such as 0xFF or 0x4001. The writer does not check `IsValidIdentifier`; keeping identifiers valid is left to the caller. The writer's own check, if it has one, is not visible.
- EbmlReader.ReadNext: a header whose size runs past the end of the current level is a FormatError. The tests only read well-formed streams, so this error kind is a choice of this model.
- SegmentInfoUpdater.FieldText: when Info holds several elements with the same identifier, the last one gives the field's text, and SetText replaces that one. The tests hold one of each, so this rule is a choice of this model.
- EbmlWriter.WriteInt: integer payloads use the minimal two's-complement width. The writer's actual width choice is not visible. Only the round trip is promised.
- Utf8.Encode: strings are sequences of Unicode scalar values, so UTF-16 surrogate pairs and lone surrogates are not modelled.
