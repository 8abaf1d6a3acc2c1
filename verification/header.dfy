/** One 512-byte tar header record: its type byte, its checksum and its fixed-offset fields (the
    ustar layout up to the device numbers, then the GNU access and change times at 345 and 357,
    where ustar keeps its name prefix). */
module Header {
  import opened Wrappers
  import opened Bytes
  import opened Errors
  import opened Fields
  import Utf8

  const BLOCK_SIZE: nat := 512
  const CHECKSUM_OFFSET: nat := 148
  const CHECKSUM_LENGTH: nat := 8
  const TYPE_FLAG_OFFSET: nat := 156
  /** The checksum of an all-zero record: only the eight checksum bytes, counted as spaces. */
  const ZERO_BLOCK_CHECKSUM: nat := 256

  /** The name a header gets when its name field is not well-formed UTF-8 ("wrong name"). */
  const WRONG_NAME: seq<Byte> := [119, 114, 111, 110, 103, 32, 110, 97, 109, 101]

  /** The kinds of entry a type byte can announce. */
  datatype TypeFlag =
    | Regular              // '0'
    | ARegular             // NUL, the pre-POSIX regular file
    | Link                 // '1'
    | SymbolicLink         // '2'
    | CharacterDeviceNode  // '3'
    | BlockDevice          // '4'
    | Directory            // '5'
    | Fifo                 // '6'
    | Cont                 // '7'
    | ExtendedHeader       // 'x'
    | ExtendedGlobalHeader // 'g'
    | GnuLongName          // 'L'
    | GnuLongLink          // 'K'
    | GnuSparse            // 'S'
    | Unknown

  /** The byte that names each kind in the archive format (none for `Unknown`). */
  function FlagCode(t: TypeFlag): Option<Byte>
  {
    match t
    case Regular => Some('0' as int)
    case ARegular => Some(0)
    case Link => Some('1' as int)
    case SymbolicLink => Some('2' as int)
    case CharacterDeviceNode => Some('3' as int)
    case BlockDevice => Some('4' as int)
    case Directory => Some('5' as int)
    case Fifo => Some('6' as int)
    case Cont => Some('7' as int)
    case ExtendedHeader => Some('x' as int)
    case ExtendedGlobalHeader => Some('g' as int)
    case GnuLongName => Some('L' as int)
    case GnuLongLink => Some('K' as int)
    case GnuSparse => Some('S' as int)
    case Unknown => None
  }

  /** `TypeFlag.init(_:)`: the kind the scanner dispatches on. The global header and the GNU kinds
      are never produced: 'g' reads as an extended header and 'L', 'K', 'S' as unknown. */
  function TypeFlagOf(b: Byte): (t: TypeFlag)
    ensures !t.ExtendedGlobalHeader? && !t.GnuLongName? && !t.GnuLongLink? && !t.GnuSparse?
  {
    if b == '0' as int then Regular
    else if b == 0 then ARegular
    else if b == '1' as int then Link
    else if b == '2' as int then SymbolicLink
    else if b == '3' as int then CharacterDeviceNode
    else if b == '4' as int then BlockDevice
    else if b == '5' as int then Directory
    else if b == '6' as int then Fifo
    else if b == '7' as int then Cont
    else if b == 'x' as int then ExtendedHeader
    else if b == 'g' as int then ExtendedHeader
    else Unknown
  }

  /** The kinds `TypeFlagOf` can produce are exactly decoded from their own code. */
  lemma TypeFlagOfCode(t: TypeFlag)
    requires !t.Unknown? && !t.ExtendedGlobalHeader? && !t.GnuLongName? && !t.GnuLongLink? && !t.GnuSparse?
    ensures FlagCode(t).Some? && TypeFlagOf(FlagCode(t).value) == t
  {
  }

  /** A byte reads as a known kind exactly when it is one of the eleven codes the decoder lists;
      the global-header code reads as an extended header, the GNU codes as unknown. */
  lemma TypeFlagOfKnown(b: Byte)
    ensures TypeFlagOf(b) != Unknown <==>
      b in {0, '0' as int, '1' as int, '2' as int, '3' as int, '4' as int, '5' as int, '6' as int,
            '7' as int, 'x' as int, 'g' as int}
    ensures b == FlagCode(ExtendedGlobalHeader).value ==> TypeFlagOf(b) == ExtendedHeader
    ensures b in {FlagCode(GnuLongName).value, FlagCode(GnuLongLink).value, FlagCode(GnuSparse).value}
      ==> TypeFlagOf(b) == Unknown
    ensures TypeFlagOf(b) != Unknown ==> FlagCode(TypeFlagOf(b)) == Some(b) || b == 'g' as int
  {
  }

  /** The record with its checksum field read as eight spaces. */
  function Blanked(b: seq<Byte>): (r: seq<Byte>)
    requires |b| >= CHECKSUM_OFFSET + CHECKSUM_LENGTH
    ensures |r| == |b|
  {
    seq(|b|, i requires 0 <= i < |b| =>
      if CHECKSUM_OFFSET <= i < CHECKSUM_OFFSET + CHECKSUM_LENGTH then SPACE else b[i])
  }

  /** `Data.checkSum()`: the sum of the record's bytes with the checksum field counted as spaces. */
  function Checksum(b: seq<Byte>): nat
    requires |b| >= CHECKSUM_OFFSET + CHECKSUM_LENGTH
  {
    Sum(Blanked(b))
  }

  /** The loop of `checkSum()`: copy, blank the field, add up. */
  method ComputeChecksum(data: seq<Byte>) returns (sum: nat)
    requires |data| >= CHECKSUM_OFFSET + CHECKSUM_LENGTH
    ensures sum == Sum(data[..CHECKSUM_OFFSET]) + ZERO_BLOCK_CHECKSUM + Sum(data[CHECKSUM_OFFSET + CHECKSUM_LENGTH..])
    ensures sum == Checksum(data)
  {
    ghost var blanked := Blanked(data);
    sum := 0;
    var i := 0;
    while i < |data|
      invariant 0 <= i <= |data|
      invariant sum == Sum(blanked[..i])
    {
      var v := if CHECKSUM_OFFSET <= i < CHECKSUM_OFFSET + CHECKSUM_LENGTH then SPACE else data[i];
      assert blanked[..i + 1][..i] == blanked[..i];
      sum := sum + v;
      i := i + 1;
    }
    assert blanked[..|data|] == blanked;
    ChecksumSplit(data);
  }

  /** The checksum is the plain sum of every byte outside the field, plus 8 * 32 for the field. */
  lemma ChecksumSplit(b: seq<Byte>)
    requires |b| >= CHECKSUM_OFFSET + CHECKSUM_LENGTH
    ensures Checksum(b) == Sum(b[..CHECKSUM_OFFSET]) + ZERO_BLOCK_CHECKSUM + Sum(b[CHECKSUM_OFFSET + CHECKSUM_LENGTH..])
  {
    var spaces: seq<Byte> := [SPACE, SPACE, SPACE, SPACE, SPACE, SPACE, SPACE, SPACE];
    var head := b[..CHECKSUM_OFFSET];
    var tail := b[CHECKSUM_OFFSET + CHECKSUM_LENGTH..];
    assert Blanked(b) == head + spaces + tail;
    SumAppend(head + spaces, tail);
    SumAppend(head, spaces);
    SumOfSpaces(spaces);
  }

  lemma {:induction false} SumOfSpaces(s: seq<Byte>)
    requires forall i :: 0 <= i < |s| ==> s[i] == SPACE
    ensures Sum(s) == SPACE * |s|
    decreases |s|
  {
    if |s| > 0 {
      SumOfSpaces(s[..|s| - 1]);
    }
  }

  predicate InChecksumField(i: int)
  {
    CHECKSUM_OFFSET <= i < CHECKSUM_OFFSET + CHECKSUM_LENGTH
  }

  /** A record sums to 256 exactly when every byte outside the checksum field is zero; in
      particular an all-zero record sums to exactly 256. */
  lemma ZeroBlockChecksum(b: seq<Byte>)
    requires |b| >= CHECKSUM_OFFSET + CHECKSUM_LENGTH
    ensures Checksum(b) == ZERO_BLOCK_CHECKSUM <==>
      forall i :: 0 <= i < |b| && !InChecksumField(i) ==> b[i] == 0
  {
    var head := b[..CHECKSUM_OFFSET];
    var tail := b[CHECKSUM_OFFSET + CHECKSUM_LENGTH..];
    ChecksumSplit(b);
    SumZeroIff(head);
    SumZeroIff(tail);
    if forall i :: 0 <= i < |b| && !InChecksumField(i) ==> b[i] == 0 {
      assert forall i :: 0 <= i < |head| ==> head[i] == b[i];
      assert forall i :: 0 <= i < |tail| ==> tail[i] == b[i + CHECKSUM_OFFSET + CHECKSUM_LENGTH];
    } else {
      var i :| 0 <= i < |b| && !InChecksumField(i) && b[i] != 0;
      if i < CHECKSUM_OFFSET {
        assert head[i] != 0;
      } else {
        assert tail[i - CHECKSUM_OFFSET - CHECKSUM_LENGTH] != 0;
      }
    }
  }

  /** The bytes of the checksum field itself never change the checksum. */
  lemma ChecksumIgnoresField(b: seq<Byte>, c: seq<Byte>)
    requires |b| == |c| >= CHECKSUM_OFFSET + CHECKSUM_LENGTH
    requires forall i :: 0 <= i < |b| && !InChecksumField(i) ==> b[i] == c[i]
    ensures Checksum(b) == Checksum(c)
  {
    assert Blanked(b) == Blanked(c);
  }

  /** Changing one byte outside the checksum field changes the checksum by the same amount. */
  lemma ChecksumOfOneByteChange(b: seq<Byte>, i: nat, x: Byte)
    requires |b| >= CHECKSUM_OFFSET + CHECKSUM_LENGTH
    requires i < |b| && !InChecksumField(i)
    ensures Checksum(b[i := x]) == Checksum(b) - b[i] + x
  {
    var c := b[i := x];
    var bb := Blanked(b);
    var cb := Blanked(c);
    assert bb == bb[..i] + [b[i]] + bb[i + 1..];
    assert cb == bb[..i] + [x] + bb[i + 1..];
    SumAppend(bb[..i] + [b[i]], bb[i + 1..]);
    SumAppend(bb[..i], [b[i]]);
    SumAppend(bb[..i] + [x], bb[i + 1..]);
    SumAppend(bb[..i], [x]);
  }

  /** The decoded header. Text fields hold the UTF-8 bytes of the decoded string; the three
      timestamps are kept as their decoded text (their conversion to a date is not modelled). */
  datatype HeaderRecord = HeaderRecord(
    name: seq<Byte>,
    attribute: seq<Byte>,
    userId: seq<Byte>,
    groupId: seq<Byte>,
    length: nat,
    updateDate: seq<Byte>,
    checkSum: nat,
    typeFlag: TypeFlag,
    linkName: seq<Byte>,
    magic: seq<Byte>,
    userName: seq<Byte>,
    groupName: seq<Byte>,
    major: seq<Byte>,
    minor: seq<Byte>,
    lastAccessDate: seq<Byte>,
    createDate: seq<Byte>)

  /** The name field, with the one tolerated failure: text that is not UTF-8 becomes "wrong name". */
  function NameField(block: seq<Byte>): (name: seq<Byte>)
    requires |block| == BLOCK_SIZE
    ensures Utf8.Valid(UpToNul(block[..100])) ==> name == UpToNul(block[..100])
    ensures !Utf8.Valid(UpToNul(block[..100])) ==> name == WRONG_NAME
  {
    match StringExtract(block, 0, 100)
    case Ok(s) => s
    case Err(_) => WRONG_NAME
  }

  /** `Data.loadHeader()`: the fields at the offsets above, decoded in the order
      `loadHeader()` decodes them, so the first failing field decides the error. */
  function LoadHeader(block: seq<Byte>): (r: Result<HeaderRecord, TarError>)
    requires |block| == BLOCK_SIZE
    ensures r.Ok? ==> r.value.typeFlag == TypeFlagOf(block[TYPE_FLAG_OFFSET])
    ensures r.Err? ==> r.error in {DecodeStringError, Trap}
  {
    var name := NameField(block);
    var attribute :- StringExtract(block, 100, 8);
    var userId :- StringExtract(block, 108, 8);
    var groupId :- StringExtract(block, 116, 8);
    var sizeString :- StringExtract(block, 124, 12);
    var size :- StrToUL8(sizeString);
    var updateDate :- StringExtract(block, 136, 12);
    var checkSumString :- StringExtract(block, CHECKSUM_OFFSET, CHECKSUM_LENGTH);
    var checkSum :- StrToUL8(checkSumString);
    var typeFlag := TypeFlagOf(BytesToUInt8Array(block, TYPE_FLAG_OFFSET, 1)[0]);
    var linkName :- StringExtract(block, 157, 100);
    var magic :- StringExtract(block, 257, 8);
    var userName :- StringExtract(block, 265, 32);
    var groupName :- StringExtract(block, 297, 32);
    var major :- StringExtract(block, 329, 8);
    var minor :- StringExtract(block, 337, 8);
    var lastAccessDate :- StringExtract(block, 345, 12);
    var createDate :- StringExtract(block, 357, 12);
    Ok(HeaderRecord(name, attribute, userId, groupId, size, updateDate, checkSum, typeFlag,
                    linkName, magic, userName, groupName, major, minor, lastAccessDate, createDate))
  }

  /** A header that decodes is made of its fields: every field after the name decoded without
      error, the numeric fields parsed, and each value landed in its own slot. Together with the
      error cases of the fields this says that the only tolerated failure is the name's. */
  lemma LoadHeaderFields(block: seq<Byte>)
    requires |block| == BLOCK_SIZE && LoadHeader(block).Ok?
    ensures StringExtract(block, 100, 8).Ok? && StringExtract(block, 108, 8).Ok?
    ensures StringExtract(block, 116, 8).Ok? && StringExtract(block, 124, 12).Ok?
    ensures StrToUL8(StringExtract(block, 124, 12).value).Ok? && StringExtract(block, 136, 12).Ok?
    ensures StringExtract(block, CHECKSUM_OFFSET, CHECKSUM_LENGTH).Ok?
    ensures StrToUL8(StringExtract(block, CHECKSUM_OFFSET, CHECKSUM_LENGTH).value).Ok?
    ensures StringExtract(block, 157, 100).Ok? && StringExtract(block, 257, 8).Ok?
    ensures StringExtract(block, 265, 32).Ok? && StringExtract(block, 297, 32).Ok?
    ensures StringExtract(block, 329, 8).Ok? && StringExtract(block, 337, 8).Ok?
    ensures StringExtract(block, 345, 12).Ok? && StringExtract(block, 357, 12).Ok?
    ensures LoadHeader(block).value == HeaderRecord(
      NameField(block),
      StringExtract(block, 100, 8).value,
      StringExtract(block, 108, 8).value,
      StringExtract(block, 116, 8).value,
      StrToUL8(StringExtract(block, 124, 12).value).value,
      StringExtract(block, 136, 12).value,
      StrToUL8(StringExtract(block, CHECKSUM_OFFSET, CHECKSUM_LENGTH).value).value,
      TypeFlagOf(block[TYPE_FLAG_OFFSET]),
      StringExtract(block, 157, 100).value,
      StringExtract(block, 257, 8).value,
      StringExtract(block, 265, 32).value,
      StringExtract(block, 297, 32).value,
      StringExtract(block, 329, 8).value,
      StringExtract(block, 337, 8).value,
      StringExtract(block, 345, 12).value,
      StringExtract(block, 357, 12).value)
  {
    var attribute := StringExtract(block, 100, 8);
    var userId := StringExtract(block, 108, 8);
    var groupId := StringExtract(block, 116, 8);
    var sizeString := StringExtract(block, 124, 12);
    assert attribute.Ok? && userId.Ok? && groupId.Ok? && sizeString.Ok?;
    var size := StrToUL8(sizeString.value);
    var updateDate := StringExtract(block, 136, 12);
    assert size.Ok? && updateDate.Ok?;
    var checkSumString := StringExtract(block, CHECKSUM_OFFSET, CHECKSUM_LENGTH);
    assert checkSumString.Ok?;
    var checkSum := StrToUL8(checkSumString.value);
    assert checkSum.Ok?;
    var linkName := StringExtract(block, 157, 100);
    var magic := StringExtract(block, 257, 8);
    var userName := StringExtract(block, 265, 32);
    var groupName := StringExtract(block, 297, 32);
    assert linkName.Ok? && magic.Ok? && userName.Ok? && groupName.Ok?;
    var major := StringExtract(block, 329, 8);
    var minor := StringExtract(block, 337, 8);
    var lastAccessDate := StringExtract(block, 345, 12);
    var createDate := StringExtract(block, 357, 12);
    assert major.Ok? && minor.Ok? && lastAccessDate.Ok? && createDate.Ok?;
  }

  /** The stored checksum a header carries is read from the checksum field alone. */
  lemma StoredChecksumOfField(b: seq<Byte>, c: seq<Byte>)
    requires |b| == BLOCK_SIZE && |c| == BLOCK_SIZE
    requires LoadHeader(b).Ok? && LoadHeader(c).Ok?
    requires b[CHECKSUM_OFFSET..CHECKSUM_OFFSET + CHECKSUM_LENGTH] == c[CHECKSUM_OFFSET..CHECKSUM_OFFSET + CHECKSUM_LENGTH]
    ensures LoadHeader(b).value.checkSum == LoadHeader(c).value.checkSum
  {
    LoadHeaderFields(b);
    LoadHeaderFields(c);
    assert BytesToUInt8Array(c, CHECKSUM_OFFSET, CHECKSUM_LENGTH) == BytesToUInt8Array(b, CHECKSUM_OFFSET, CHECKSUM_LENGTH);
  }

  /** A header whose stored checksum matches its sum stops matching once one byte outside the
      checksum field changes: the sum moves and the stored value does not. */
  lemma OneByteChangeBreaksChecksum(b: seq<Byte>, c: seq<Byte>, i: nat)
    requires |b| == BLOCK_SIZE && LoadHeader(b).Ok? && LoadHeader(b).value.checkSum == Checksum(b)
    requires |c| == BLOCK_SIZE && i < BLOCK_SIZE && !InChecksumField(i) && c == b[i := c[i]] && c[i] != b[i]
    requires LoadHeader(c).Ok?
    ensures LoadHeader(c).value.checkSum != Checksum(c)
  {
    ChecksumOfOneByteChange(b, i, c[i]);
    assert c[CHECKSUM_OFFSET..CHECKSUM_OFFSET + CHECKSUM_LENGTH] == b[CHECKSUM_OFFSET..CHECKSUM_OFFSET + CHECKSUM_LENGTH];
    StoredChecksumOfField(b, c);
  }
}
