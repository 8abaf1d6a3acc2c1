/** A header writer for the layout `LoadHeader` reads, the reference the decoder is checked against: every field is laid out
    at its offset, text padded with NUL, numbers as octal digits. */
module HeaderEncoding {
  import opened Wrappers
  import opened Bytes
  import opened Errors
  import opened Fields
  import opened Header
  import Utf8

  const SIZE_DIGITS: nat := 11
  const CHECKSUM_DIGITS: nat := 6

  /** Byte `j` of a field that holds `text` followed by NUL fill. */
  function PadAt(text: seq<Byte>, j: nat): Byte
  {
    if j < |text| then text[j] else NUL
  }

  /** Text that can be stored in a field of `width` bytes and decoded back unchanged. */
  predicate FitsField(text: seq<Byte>, width: nat)
  {
    |text| <= width && NUL !in text && Utf8.Valid(text)
  }

  /** Kinds the decoder reads back from their own code. */
  predicate Writable(t: TypeFlag)
  {
    FlagCode(t).Some? && TypeFlagOf(FlagCode(t).value) == t
  }

  predicate WellFormed(h: HeaderRecord)
  {
    && FitsField(h.name, 100) && FitsField(h.attribute, 8) && FitsField(h.userId, 8)
    && FitsField(h.groupId, 8) && h.length < Pow8(SIZE_DIGITS) && FitsField(h.updateDate, 12)
    && h.checkSum < Pow8(CHECKSUM_DIGITS) && Writable(h.typeFlag)
    && FitsField(h.linkName, 100) && FitsField(h.magic, 8) && FitsField(h.userName, 32)
    && FitsField(h.groupName, 32) && FitsField(h.major, 8) && FitsField(h.minor, 8)
    && FitsField(h.lastAccessDate, 12) && FitsField(h.createDate, 12)
  }

  /** Byte `i` of the record that stores `h`. The size is eleven digits and a NUL, the checksum six
      digits, a NUL and a space, as ustar writers lay them out. */
  function HeaderByte(h: HeaderRecord, i: nat): Byte
    requires Writable(h.typeFlag)
  {
    if i < 100 then PadAt(h.name, i)
    else if i < 108 then PadAt(h.attribute, i - 100)
    else if i < 116 then PadAt(h.userId, i - 108)
    else if i < 124 then PadAt(h.groupId, i - 116)
    else if i < 136 then PadAt(OctalDigits(h.length, SIZE_DIGITS), i - 124)
    else if i < 148 then PadAt(h.updateDate, i - 136)
    else if i < 156 then PadAt(OctalDigits(h.checkSum, CHECKSUM_DIGITS) + [NUL, SPACE], i - 148)
    else if i == 156 then FlagCode(h.typeFlag).value
    else if i < 257 then PadAt(h.linkName, i - 157)
    else if i < 265 then PadAt(h.magic, i - 257)
    else if i < 297 then PadAt(h.userName, i - 265)
    else if i < 329 then PadAt(h.groupName, i - 297)
    else if i < 337 then PadAt(h.major, i - 329)
    else if i < 345 then PadAt(h.minor, i - 337)
    else if i < 357 then PadAt(h.lastAccessDate, i - 345)
    else if i < 369 then PadAt(h.createDate, i - 357)
    else NUL
  }

  function EncodeHeader(h: HeaderRecord): (block: seq<Byte>)
    requires Writable(h.typeFlag)
    ensures |block| == BLOCK_SIZE
  {
    seq(BLOCK_SIZE, i requires 0 <= i < BLOCK_SIZE => HeaderByte(h, i))
  }

  /** A field laid out as `text` plus NUL fill decodes to `text`. */
  lemma ExtractPadded(block: seq<Byte>, start: nat, width: nat, text: seq<Byte>)
    requires start + width <= |block| && FitsField(text, width)
    requires forall j :: 0 <= j < width ==> block[start + j] == PadAt(text, j)
    ensures StringExtract(block, start, width) == Ok(text)
  {
    forall j | 0 <= j < |text| ensures block[start + j] == text[j] {
      assert PadAt(text, j) == text[j];
    }
    if |text| < width {
      assert PadAt(text, |text|) == NUL;
    }
    assert block[start..start + |text|] == text;
    StringExtractOfPaddedText(block, start, width, text);
  }

  lemma OctalDigitsAreAscii(n: nat, width: nat)
    ensures Utf8.IsAscii(OctalDigits(n, width)) && NUL !in OctalDigits(n, width)
  {
    var d := OctalDigits(n, width);
    assert forall i :: 0 <= i < |d| ==> IsOctalDigit(d[i]);
  }

  /** An octal field decodes, through `StringExtract` and `StrToUL8`, to the number written. */
  lemma ReadOctalField(block: seq<Byte>, start: nat, width: nat, digits: nat, n: nat, fill: seq<Byte>)
    requires 0 < digits < width && start + width <= |block|
    requires n < Pow8(digits) && n <= INT64_MAX
    requires |fill| == width - digits && |fill| > 0 && fill[0] == NUL
    requires forall j :: 0 <= j < width ==> block[start + j] == PadAt(OctalDigits(n, digits) + fill, j)
    ensures StringExtract(block, start, width).Ok?
    ensures StrToUL8(StringExtract(block, start, width).value) == Ok(n)
  {
    var d := OctalDigits(n, digits);
    OctalDigitsAreAscii(n, digits);
    Utf8.AsciiIsValid(d);
    assert block[start..start + |d|] == d by {
      forall j | 0 <= j < |d| ensures block[start + j] == d[j] {
        assert PadAt(d + fill, j) == d[j];
      }
    }
    assert block[start + |d|] == NUL by {
      assert PadAt(d + fill, |d|) == fill[0];
    }
    StringExtractOfPaddedText(block, start, width, d);
    assert d == [] + d + [];
    StrToUL8OfOctalField([], n, digits, []);
  }

  lemma EncodedText(h: HeaderRecord, start: nat, width: nat, text: seq<Byte>)
    requires Writable(h.typeFlag) && start + width <= BLOCK_SIZE && FitsField(text, width)
    requires forall j :: 0 <= j < width ==> HeaderByte(h, start + j) == PadAt(text, j)
    ensures StringExtract(EncodeHeader(h), start, width) == Ok(text)
  {
    ExtractPadded(EncodeHeader(h), start, width, text);
  }

  lemma EncodedOctal(h: HeaderRecord, start: nat, width: nat, digits: nat, n: nat, fill: seq<Byte>)
    requires Writable(h.typeFlag) && start + width <= BLOCK_SIZE
    requires 0 < digits < width && n < Pow8(digits) && n <= INT64_MAX
    requires |fill| == width - digits && |fill| > 0 && fill[0] == NUL
    requires forall j :: 0 <= j < width ==> HeaderByte(h, start + j) == PadAt(OctalDigits(n, digits) + fill, j)
    ensures StringExtract(EncodeHeader(h), start, width).Ok?
    ensures StrToUL8(StringExtract(EncodeHeader(h), start, width).value) == Ok(n)
  {
    ReadOctalField(EncodeHeader(h), start, width, digits, n, fill);
  }

  /** Decoding succeeds with `h` once each field decodes to its part of `h`. */
  lemma LoadHeaderOfFields(h: HeaderRecord, b: seq<Byte>)
    requires |b| == BLOCK_SIZE && Writable(h.typeFlag)
    requires StringExtract(b, 0, 100) == Ok(h.name)
    requires StringExtract(b, 100, 8) == Ok(h.attribute)
    requires StringExtract(b, 108, 8) == Ok(h.userId)
    requires StringExtract(b, 116, 8) == Ok(h.groupId)
    requires StringExtract(b, 124, 12).Ok? && StrToUL8(StringExtract(b, 124, 12).value) == Ok(h.length)
    requires StringExtract(b, 136, 12) == Ok(h.updateDate)
    requires StringExtract(b, 148, 8).Ok? && StrToUL8(StringExtract(b, 148, 8).value) == Ok(h.checkSum)
    requires b[TYPE_FLAG_OFFSET] == FlagCode(h.typeFlag).value
    requires StringExtract(b, 157, 100) == Ok(h.linkName)
    requires StringExtract(b, 257, 8) == Ok(h.magic)
    requires StringExtract(b, 265, 32) == Ok(h.userName)
    requires StringExtract(b, 297, 32) == Ok(h.groupName)
    requires StringExtract(b, 329, 8) == Ok(h.major)
    requires StringExtract(b, 337, 8) == Ok(h.minor)
    requires StringExtract(b, 345, 12) == Ok(h.lastAccessDate)
    requires StringExtract(b, 357, 12) == Ok(h.createDate)
    ensures LoadHeader(b) == Ok(h)
  {
  }

  /** The name and link-name fields decode to their text. */
  lemma EncodedNamesDecode(h: HeaderRecord)
    requires WellFormed(h)
    ensures StringExtract(EncodeHeader(h), 0, 100) == Ok(h.name)
    ensures StringExtract(EncodeHeader(h), 157, 100) == Ok(h.linkName)
  {
    EncodedText(h, 0, 100, h.name);
    EncodedText(h, 157, 100, h.linkName);
  }

  /** The mode field decodes to its text. */
  lemma EncodedModeDecodes(h: HeaderRecord)
    requires WellFormed(h)
    ensures StringExtract(EncodeHeader(h), 100, 8) == Ok(h.attribute)
  {
    EncodedText(h, 100, 8, h.attribute);
  }

  /** The numeric owner fields decode to their text. */
  lemma EncodedIdsDecode(h: HeaderRecord)
    requires WellFormed(h)
    ensures StringExtract(EncodeHeader(h), 108, 8) == Ok(h.userId)
    ensures StringExtract(EncodeHeader(h), 116, 8) == Ok(h.groupId)
  {
    EncodedText(h, 108, 8, h.userId);
    EncodedText(h, 116, 8, h.groupId);
  }

  /** The magic field decodes to its text. */
  lemma EncodedMagicDecodes(h: HeaderRecord)
    requires WellFormed(h)
    ensures StringExtract(EncodeHeader(h), 257, 8) == Ok(h.magic)
  {
    EncodedText(h, 257, 8, h.magic);
  }

  /** The owner-name fields decode to their text. */
  lemma EncodedOwnerNamesDecode(h: HeaderRecord)
    requires WellFormed(h)
    ensures StringExtract(EncodeHeader(h), 265, 32) == Ok(h.userName)
    ensures StringExtract(EncodeHeader(h), 297, 32) == Ok(h.groupName)
  {
    EncodedText(h, 265, 32, h.userName);
    EncodedText(h, 297, 32, h.groupName);
  }

  /** The modification-time field decodes to its text. */
  lemma EncodedUpdateDateDecode(h: HeaderRecord)
    requires WellFormed(h)
    ensures StringExtract(EncodeHeader(h), 136, 12) == Ok(h.updateDate)
  {
    EncodedText(h, 136, 12, h.updateDate);
  }

  /** The access-time and creation-time fields decode to their text. */
  lemma EncodedDatesDecode(h: HeaderRecord)
    requires WellFormed(h)
    ensures StringExtract(EncodeHeader(h), 345, 12) == Ok(h.lastAccessDate)
    ensures StringExtract(EncodeHeader(h), 357, 12) == Ok(h.createDate)
  {
    EncodedText(h, 345, 12, h.lastAccessDate);
    EncodedText(h, 357, 12, h.createDate);
  }

  /** The device number fields decode to their text. */
  lemma EncodedDevicesDecode(h: HeaderRecord)
    requires WellFormed(h)
    ensures StringExtract(EncodeHeader(h), 329, 8) == Ok(h.major)
    ensures StringExtract(EncodeHeader(h), 337, 8) == Ok(h.minor)
  {
    EncodedText(h, 329, 8, h.major);
    EncodedText(h, 337, 8, h.minor);
  }

  /** The type byte is the code of the kind. */
  lemma EncodedFlag(h: HeaderRecord)
    requires WellFormed(h)
    ensures EncodeHeader(h)[TYPE_FLAG_OFFSET] == FlagCode(h.typeFlag).value
  {
  }

  /** The size field decodes to the payload length written. */
  lemma EncodedLengthDecodes(h: HeaderRecord)
    requires WellFormed(h)
    ensures StringExtract(EncodeHeader(h), 124, 12).Ok?
    ensures StrToUL8(StringExtract(EncodeHeader(h), 124, 12).value) == Ok(h.length)
  {
    assert Pow8(SIZE_DIGITS) == 8589934592;
    EncodedOctal(h, 124, 12, SIZE_DIGITS, h.length, [NUL]);
  }

  /** The checksum field decodes to the checksum written. */
  lemma EncodedChecksumDecodes(h: HeaderRecord)
    requires WellFormed(h)
    ensures StringExtract(EncodeHeader(h), 148, 8).Ok?
    ensures StrToUL8(StringExtract(EncodeHeader(h), 148, 8).value) == Ok(h.checkSum)
  {
    assert Pow8(CHECKSUM_DIGITS) == 262144;
    EncodedOctal(h, 148, 8, CHECKSUM_DIGITS, h.checkSum, [NUL, SPACE]);
  }

  /** Round trip: the decoder reads back every field the writer laid out. */
  lemma LoadEncodedHeader(h: HeaderRecord)
    requires WellFormed(h)
    ensures LoadHeader(EncodeHeader(h)) == Ok(h)
  {
    EncodedNamesDecode(h);
    EncodedModeDecodes(h);
    EncodedIdsDecode(h);
    EncodedMagicDecodes(h);
    EncodedOwnerNamesDecode(h);
    EncodedUpdateDateDecode(h);
    EncodedDatesDecode(h);
    EncodedDevicesDecode(h);
    EncodedLengthDecodes(h);
    EncodedChecksumDecodes(h);
    EncodedFlag(h);
    LoadHeaderOfFields(h, EncodeHeader(h));
  }
}
