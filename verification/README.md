# UntarLight in Dafny

A model of the core of UntarLight, a small read-only tar reader. It walks a ustar/pax archive
one 512-byte record at a time and builds a catalog of `Entry` values:

- files, each with the offset and length of its payload;
- directories;
- symbolic links;
- zero blocks.

A caller can later copy a file's payload out of the archive with `extractFile`.

The model follows `Sources/UntarLight/UntarLight.swift`:

- **Record fields.** Fields are read out of a header record. `stringExtract` takes the text up
  to the first NUL and decodes it as UTF-8. Sizes and checksums go through `strtoul` in base 8.
- **Checksum.** The header checksum sums the record with its checksum field read as eight
  spaces. A sum of exactly 256 marks a zero block.
- **Type flag.** The type flag byte is mapped onto `TypeFlag`.
- **Extended headers.** A pax extended header (`x`, and also `g`) carries `"<len> key=value\n"`
  records. These are decoded into a pending dictionary. A directory or file with a "path" key,
  or a link with a "linkpath" key, takes its names from it and clears it. Anything else leaves it
  pending: skipped kinds, and a directory or file without "path" or a link without "linkpath".
  A later extended header replaces it.
- **End of scan.** The scan ends when a read returns nothing. The raw list must then end in two
  zero blocks, which are dropped.

Modelling choices:

- The archive is an immutable byte sequence. The file handle is a position in it.
- A Swift `String` is modelled by its UTF-8 bytes. "Decodes as UTF-8" is the well-formedness
  predicate of Table 3-7 of the Unicode Standard, in `Utf8.Valid`.
- Runtime traps of the Swift code are an explicit `Trap` error, so they are modelled as outcomes
  and not excluded. These are a negative `prefix`, an out-of-range `suffix(from:)`,
  `Int(UInt)` above `Int.max`, and the range `offset..<offset + length` of `traceLongName` with
  a negative length.
- Raw-pointer reads are always in bounds at the call sites, and are preconditions.

Files, one module each:

| file | module | contents |
|---|---|---|
| `wrappers.dfy` | `Wrappers` | `Option`, `Result` |
| `bytes.dfy` | `Bytes` | bytes, sums, NUL-terminated text, `firstIndex(of:)` |
| `utf8.dfy` | `Utf8` | UTF-8 well-formedness |
| `errors.dfy` | `Errors` | `UntarLightError`, plus `Trap` |
| `fields.dfy` | `Fields` | `bytesToUInt8Array`, `stringExtract`, `strtoul(_, nil, 8)` |
| `header.dfy` | `Header` | `TypeFlag`, `Data.checkSum`, `Data.loadHeader` |
| `header_encoding.dfy` | `HeaderEncoding` | a header writer, and the proof that `loadHeader` reads it back |
| `pax.dfy` | `Pax` | `Data.loadLongName`, `traceLongName`, the `(.+?)=(.+)` match |
| `pax_encoding.dfy` | `PaxEncoding` | a pax record writer, and the proof that `loadLongName` reads it back |
| `entry.dfy` | `Entries` | `Entry`, `Entry.key` |
| `scanner.dfy` | `Scanner` | `padding`, `extractTarEntry`, `extractFile` |
| `scanner_props.dfy` | `ScannerProperties` | per-record behaviour of the scan, and the layout of the catalog |

`ExtractTarEntry` is the recursive definition of the scan. `ExtractTarEntryLoop` is the
`while true` loop of the source, proved equal to it.

Behaviour of the code worth knowing:

- **Zero blocks.** Zero blocks met before the closing pair stay in the catalog; `Finish` drops
  only the last two.
- **Extended headers.** An extended header whose payload read comes back empty throws
  `endOfFile`, which is caught. The scan then ends normally (`Ended`) rather than failing, and
  the end check after the loop still gives `unknownError` unless the raw list ends in two zero
  blocks. A short read that is not empty fails with `cannotLoadBlock`.
- **Zero-length files.** `extractFile` on a file entry of length 0 succeeds wherever its offset
  points, because the empty read matches the length.
- **`strtoul`.** The size and checksum fields use C `strtoul`. It skips leading white space,
  accepts a sign, and saturates on overflow. Both the sign and the saturation are modelled.
  A saturated value then traps in `Int(...)`.

## Model

| member | source | states |
|---|---|---|
| Entries.Key | Sources/UntarLight/UntarLight.swift:10-21 | a file or directory is keyed by its path, a link by its name, a zero block by "_" |
| Entries.KeyIgnoresPayload | Sources/UntarLight/UntarLight.swift:10-21 | the key does not depend on a file's offset and length or on a link's target, and a file, a directory and a link with the same name share one key |
| Header.TypeFlagOf | Sources/UntarLight/UntarLight.swift:42-68 | the byte-to-flag mapping never yields `g`, `L`, `K` or `S` as their own cases |
| Header.TypeFlagOfCode | Sources/UntarLight/UntarLight.swift:24-68 | every flag the initializer can produce has a code byte that maps back to it |
| Header.TypeFlagOfKnown | Sources/UntarLight/UntarLight.swift:42-68 | a byte maps to a known flag exactly when it is one of `0`, NUL, `1`–`7`, `x`, `g`; `g` maps to the extended header; `L`, `K`, `S` map to unknown |
| Fields.BytesToUInt8Array | Sources/UntarLight/UntarLight.swift:185-189 | the copy has the requested length and holds the block's bytes from `start` on |
| Fields.StringExtract | Sources/UntarLight/UntarLight.swift:191-201 | decoding succeeds exactly when the text before the first NUL (or the whole field) is valid UTF-8; the result is a NUL-free prefix of the field, followed by NUL when shorter; failure is `decodeStringError` |
| Fields.StringExtractOfPaddedText | Sources/UntarLight/UntarLight.swift:191-201 | a field holding valid NUL-free text followed by a NUL, or filled by it, reads back as that text |
| Fields.StrToUL8 | Sources/UntarLight/UntarLight.swift:422-423 | a size that converts is at most `Int.max`; the only failure is the `Int(UInt)` trap |
| Fields.StrToUL8OfNoDigits | Sources/UntarLight/UntarLight.swift:422-423 | white space, an optional sign, then no octal digit converts to 0; an empty field is one such text |
| Fields.StrToUL8OfNegative | Sources/UntarLight/UntarLight.swift:422-423 | a minus before digits of value m gives 0 for m = 0, wraps to 2^64 - m and traps in `Int(...)` for 0 < m <= 2^63, gives 2^64 - m above that, and traps when m does not fit in 64 bits |
| Fields.StrToUL8OfOctalField | Sources/UntarLight/UntarLight.swift:422-423 | leading white space, then octal digits, then a non-digit, converts to the digits' value |
| Fields.OctalValueOfDigits | Sources/UntarLight/UntarLight.swift:428-429 | a number written as fixed-width octal digits reads back as itself |
| Header.ChecksumSplit | Sources/UntarLight/UntarLight.swift:335-349 | `Data.checkSum` is the sum of the bytes before the checksum field, plus 256 for the field read as eight spaces, plus the bytes after it |
| Header.ComputeChecksum | Sources/UntarLight/UntarLight.swift:335-349 | the loop's sum is the bytes before the checksum field, plus eight spaces, plus the bytes after it, which is `Checksum` |
| Header.ZeroBlockChecksum | Sources/UntarLight/UntarLight.swift:254-260 | the checksum is 256 exactly when every byte outside the checksum field is zero |
| Header.ChecksumIgnoresField | Sources/UntarLight/UntarLight.swift:341-343 | two records that differ only inside the checksum field have the same checksum |
| Header.ChecksumOfOneByteChange | Sources/UntarLight/UntarLight.swift:335-349 | changing one byte outside the field shifts the checksum by the difference of the bytes |
| Header.NameField | Sources/UntarLight/UntarLight.swift:407-415 | the name is the text before the first NUL of the first 100 bytes when that text is valid UTF-8, and "wrong name" exactly when it is not |
| Header.LoadHeader | Sources/UntarLight/UntarLight.swift:400-451 | a decoded header's flag is the mapping of byte 156; failures are only `decodeStringError` or a trap |
| Header.LoadHeaderFields | Sources/UntarLight/UntarLight.swift:417-449 | a header that decodes is made field by field from the offsets and widths the code reads: ustar up to the device numbers, then GNU's access and change times at 345 and 357 |
| Header.StoredChecksumOfField | Sources/UntarLight/UntarLight.swift:428-429 | the stored checksum depends only on bytes 148–155 |
| Header.OneByteChangeBreaksChecksum | Sources/UntarLight/UntarLight.swift:263 | if a header passes its checksum test, then after any one-byte change outside the checksum field it fails that test |
| HeaderEncoding.LoadEncodedHeader | Sources/UntarLight/UntarLight.swift:400-451 | round trip: a well-formed header written into a record decodes back to itself |
| Pax.ParseInt | Sources/UntarLight/UntarLight.swift:369 | a parsed length lies within Int64, and a negative one was written with a leading minus |
| Pax.ParseIntOfSignedDigits | Sources/UntarLight/UntarLight.swift:367-369 | an optional `+` or `-` and one or more decimal digits parse to the digits' value, negated after `-`, when it lies in Int64, and to nothing when it does not |
| Pax.ParseIntRejectsNonDigits | Sources/UntarLight/UntarLight.swift:367-369 | after an optional sign, no digits or any byte that is not a decimal digit makes the length text fail to parse |
| Pax.SplitRecords | Sources/UntarLight/UntarLight.swift:361-382 | every record text kept is valid UTF-8; failures are `unknownError` or a trap |
| Pax.SplitWithoutSpace | Sources/UntarLight/UntarLight.swift:361-363 | a non-empty payload without a space gives `unknownError` |
| Pax.SplitBadLength | Sources/UntarLight/UntarLight.swift:365-369 | text before the first space that is not an `Int` gives `unknownError` |
| Pax.SplitShortLengthTraps | Sources/UntarLight/UntarLight.swift:369-371 | a declared length that is negative or at most the space's index traps |
| Pax.SplitUndecodableBody | Sources/UntarLight/UntarLight.swift:371-373 | a record text that is not UTF-8 gives `unknownError` |
| Pax.SplitWholeRecord | Sources/UntarLight/UntarLight.swift:371-378 | a record that fits in the payload is kept, followed by the split of the bytes after its declared length, and any failure there is the payload's failure |
| Pax.SplitTruncatedRecord | Sources/UntarLight/UntarLight.swift:371-381 | a record whose declared length runs past the payload is kept, cut at the payload's end, and is the last one |
| Pax.MatchLine | Sources/UntarLight/UntarLight.swift:121-127 | a match splits the line at its first `=` that has text on both sides; no match means there is no such `=` |
| Pax.FirstMatch | Sources/UntarLight/UntarLight.swift:390-394 | a match has a non-empty key and a non-empty value, neither holding a line terminator |
| Pax.FirstMatchOfLine | Sources/UntarLight/UntarLight.swift:121-127 | text without a line terminator matches as its single line does |
| Pax.FirstMatchAfterBreak | Sources/UntarLight/UntarLight.swift:121-127 | a line followed by a terminator gives that line's match when it has one, and otherwise the first match after the terminator; a record with no such line is dropped |
| Pax.FoldLastWins | Sources/UntarLight/UntarLight.swift:386-397 | a key takes the value of the last record that sets it |
| Pax.FoldAbsent | Sources/UntarLight/UntarLight.swift:386-397 | a key that no record sets is absent from the dictionary |
| Pax.LoadLongName | Sources/UntarLight/UntarLight.swift:351-398 | failures are `unknownError` or a trap; every key and value of the dictionary is non-empty and holds no line terminator |
| Pax.TraceLongName | Sources/UntarLight/UntarLight.swift:135-183 | a negative length traps; otherwise the bytes copied out of the window decode exactly as `loadLongName` decodes that slice |
| PaxEncoding.SplitEncodedRecords | Sources/UntarLight/UntarLight.swift:361-382 | well-formed `"<len> key=value\n"` records are split back into their texts |
| PaxEncoding.FirstMatchOfRecordText | Sources/UntarLight/UntarLight.swift:390-394 | the match of a record text yields exactly its key and value |
| PaxEncoding.LoadEncodedRecords | Sources/UntarLight/UntarLight.swift:351-398 | round trip: encoded records decode into the dictionary they describe, with the last write winning |
| PaxEncoding.TraceEncodedWindow | Sources/UntarLight/UntarLight.swift:135-183 | records encoded anywhere inside a larger buffer decode through the offset/length window into the same dictionary |
| Scanner.Padding | Sources/UntarLight/UntarLight.swift:215-218 | padding is below 512, brings the length to a multiple of 512, and is zero exactly for multiples of 512 |
| Scanner.SkipKeepsAlignment | Sources/UntarLight/UntarLight.swift:220-225 | skipping a payload and its padding keeps the position on the same record boundary |
| Scanner.ReadData | Sources/UntarLight/UntarLight.swift:249 | a read returns the next `n` bytes when they exist, a short read near the end, and nothing at or past the end |
| Scanner.Dispatch | Sources/UntarLight/UntarLight.swift:265-314 | a turn that goes on never moves back, emits at most one entry, and stays record-aligned; a file starts right after its header and the scan resumes past its padded payload; no failure is `endOfFile` |
| Scanner.ScanStep | Sources/UntarLight/UntarLight.swift:248-314 | a turn that goes on consumed a whole record, and a file entry's offset is the byte after that record |
| Scanner.Finish | Sources/UntarLight/UntarLight.swift:323-330 | the end check passes exactly when the raw list ends in two zero blocks, and its result with those two appended is the raw list; otherwise `unknownError` |
| Scanner.ExtractTarEntry | Sources/UntarLight/UntarLight.swift:241-331 | `endOfFile` never escapes the scan |
| Scanner.ExtractTarEntryLoop | Sources/UntarLight/UntarLight.swift:241-331 | the `while true` loop, with its gathered entries and pending dictionary, computes the same result as the recursive scan |
| Scanner.ExtractFile | Sources/UntarLight/UntarLight.swift:227-239 | extraction succeeds exactly for file entries whose payload lies in the archive, or has length 0; it returns exactly those bytes; otherwise `unknownError` |
| ScannerProperties.ZeroRecordStep | Sources/UntarLight/UntarLight.swift:254-260 | a record that is zero outside its checksum field appends a zero block and keeps the pending dictionary |
| ScannerProperties.EndedIff | Sources/UntarLight/UntarLight.swift:248-282 | the scan ends normally exactly when nothing is left to read, or at an extended header with size 0 or with nothing after it |
| ScannerProperties.ExtendedHeaderShortRead | Sources/UntarLight/UntarLight.swift:275-278 | an extended header whose payload read is short but not empty fails with `cannotLoadBlock` |
| ScannerProperties.ShortRecordFails | Sources/UntarLight/UntarLight.swift:249-252 | a read of 1 to 511 bytes is `unknownError` |
| ScannerProperties.ChecksumMismatchFails | Sources/UntarLight/UntarLight.swift:263 | a decodable header whose stored checksum differs from its sum is `headerCheckSumError` |
| ScannerProperties.DecodeErrorFails | Sources/UntarLight/UntarLight.swift:261 | a non-zero record that does not decode fails with the decoding error |
| ScannerProperties.CorruptedHeaderFails | Sources/UntarLight/UntarLight.swift:254-263 | one changed byte outside the checksum field of an accepted header makes the turn fail, with `headerCheckSumError` when it still decodes |
| ScannerProperties.DirectoryStep | Sources/UntarLight/UntarLight.swift:266-273 | a directory takes a pending "path" and clears the dictionary, or else keeps its header name and the dictionary |
| ScannerProperties.FileStep | Sources/UntarLight/UntarLight.swift:293-310 | a regular file is emitted at the byte after its header with the header's size, under a pending "path" if any; the scan resumes past its padded payload |
| ScannerProperties.SymbolicLinkStep | Sources/UntarLight/UntarLight.swift:283-292 | "linkpath" with "path" renames both sides; "linkpath" alone renames the target; otherwise the header's names are used and the dictionary is kept |
| ScannerProperties.SkippedKindStep | Sources/UntarLight/UntarLight.swift:311-313 | every other kind emits nothing, keeps the dictionary, and skips its padded payload |
| ScannerProperties.ExtendedHeaderReplaces | Sources/UntarLight/UntarLight.swift:274-282 | an extended header's turn does not depend on what was pending, so the new dictionary replaces the old |
| ScannerProperties.ExtendedHeaderStep | Sources/UntarLight/UntarLight.swift:274-282 | an extended header that the scan gets past emits nothing, skips its padded payload, and leaves pending exactly the decoding of that payload |
| ScannerProperties.ExtendedHeaderAdvances | Sources/UntarLight/UntarLight.swift:274-282 | conversely, an extended header whose payload is in the archive and decodes leaves that dictionary pending |
| ScannerProperties.ScanLayout | Sources/UntarLight/UntarLight.swift:293-310 | the files a scan finds start on record boundaries after their headers, are followed by a whole record, and come in order without overlapping |
| ScannerProperties.CatalogFiles | Sources/UntarLight/UntarLight.swift:227-331 | every file in a catalog lies inside the archive on a record boundary, and `extractFile` returns exactly its bytes; files appear in archive order, at least one record apart |
| ScannerProperties.FinishDropsClosingPair | Sources/UntarLight/UntarLight.swift:323-330 | the end check removes exactly the two closing zero blocks appended to any list |

## Left out

- **I/O:**
  - `FileHandle` reads, seeks and `offsetInFile` are replaced by a byte sequence and a position.
  - A seek past the end is allowed, and a read there returns nothing.
- **`print` calls** in `extractFile` are left out.
- **Dates:** the three date fields are kept as their decoded text. `dateAsTarFormat`, `Date` and
  `Double` are not modelled. Their `stringExtract` can still fail, and the model keeps that.
- **Unmodelled parts of the source:**
  - `Header.description` and `String.utf16Range`;
  - the `Comparable` conformance of `Entry`, which is not used by the code;
  - the `pointorHandlingError` case. A `Data` value's base address is never nil once it has a
    byte, and empty data never reaches `withUnsafeBytes` in the scan.
- Pax.LoadLongName and Pax.TraceLongName: on empty data they return an empty dictionary, where
  Swift's `withUnsafeBytes` sees a nil base address and throws `pointorHandlingError`. The scan
  never calls `loadLongName` on an empty payload, because an empty read ends it first.
- **Foundation decoding:** Foundation's `String(bytes:encoding:)` is modelled as strict UTF-8
  validation, with the bytes kept as they are. How Foundation treats a byte-order mark is not
  modelled.
- **NSRegularExpression:** the pattern is given by its meaning on bytes. The meaning is the first
  line holding a non-empty key, `=`, and a non-empty value, where the line terminators are
  those of ICU. The `.caseInsensitive` option does not change this pattern.
- **ustar `prefix`:** the code reads bytes 345 and 357 as GNU access and change times. The ustar
  `prefix` field that starts at 345 is never joined to the name, and the model does the same.
- Entries.Entry: offset and length are `nat`. A negative value, which makes `extractFile` trap,
  is not modelled.
- Pax.Fold: dictionary keys are compared byte for byte, because Swift compares `String` keys up to Unicode canonical equivalence, which is not modelled.
- Fields.StrToUL8: the `unsigned long` width is fixed at 64 bits.
- **Tests:** the test target and the Python scripts that build test archives are outside this
  model.
