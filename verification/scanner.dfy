/** `extractTarEntry` and `extractFile`: the walk over 512-byte records that builds the catalog,
    with the archive an immutable byte sequence and the file handle a position in it. */
module Scanner {
  import opened Wrappers
  import opened Bytes
  import opened Errors
  import opened Header
  import opened Pax
  import opened Entries

  /** The dictionary keys an extended header can supply: "path" and "linkpath". */
  const PATH_KEY: seq<Byte> := [112, 97, 116, 104]
  const LINKPATH_KEY: seq<Byte> := [108, 105, 110, 107, 112, 97, 116, 104]

  /** The fill that brings a payload of `length` bytes to the next record boundary. */
  function Padding(length: nat): (r: nat)
    ensures r < BLOCK_SIZE
    ensures (length + r) % BLOCK_SIZE == 0
    ensures r == 0 <==> length % BLOCK_SIZE == 0
  {
    if length % BLOCK_SIZE > 0 then BLOCK_SIZE - length % BLOCK_SIZE else 0
  }

  /** Skipping a payload and its padding keeps the position on the same record boundary. */
  lemma SkipKeepsAlignment(here: nat, length: nat)
    ensures (here + length + Padding(length)) % BLOCK_SIZE == here % BLOCK_SIZE
  {
    var k := (length + Padding(length)) / BLOCK_SIZE;
    assert length + Padding(length) == BLOCK_SIZE * k;
    assert here + length + Padding(length) == here + BLOCK_SIZE * k;
  }

  /** `readData(ofLength:)` with the handle at `pos`: up to `n` bytes, fewer at the end of the
      archive, none once `pos` is at or past the end (a seek may have gone past it). */
  function ReadData(archive: seq<Byte>, pos: nat, n: nat): (r: seq<Byte>)
    ensures pos + n <= |archive| ==> r == archive[pos..pos + n]
    ensures |r| <= n
    ensures pos + n > |archive| && n > 0 ==> |r| < n
    ensures pos >= |archive| ==> r == []
    ensures pos < |archive| < pos + n ==> r == archive[pos..]
  {
    if pos + n <= |archive| then archive[pos..pos + n]
    else if pos < |archive| then archive[pos..]
    else []
  }

  /** What one turn of the loop does: the archive ends (the read came back empty, which the
      source throws as `endOfFile` and catches), the scan fails, or it moves on to `next` having
      appended `emitted` and left `overlay` pending. */
  datatype Step =
    | Ended
    | Failed(error: TarError)
    | Advanced(emitted: seq<Entry>, next: nat, overlay: Option<Overlay>)

  /** The value a pending dictionary holds for `key`, if there is a dictionary and it has one. */
  function Lookup(overlay: Option<Overlay>, key: seq<Byte>): Option<seq<Byte>>
  {
    if overlay.Some? && key in overlay.value then Some(overlay.value[key]) else None
  }

  /** The switch on the type flag, for a header that passed its checksum; `here` is the position
      just after the header record. */
  function Dispatch(archive: seq<Byte>, here: nat, header: HeaderRecord, overlay: Option<Overlay>): (s: Step)
    ensures s.Advanced? ==> s.next >= here && |s.emitted| <= 1
    ensures s.Advanced? ==> s.next % BLOCK_SIZE == here % BLOCK_SIZE
    ensures s.Advanced? && |s.emitted| == 1 && s.emitted[0].File? ==>
      s.emitted[0].offset == here && s.emitted[0].length == header.length &&
      s.next == here + header.length + Padding(header.length)
    ensures s.Failed? ==> s.error != EndOfFile
  {
    var skipTo := here + header.length + Padding(header.length);
    SkipKeepsAlignment(here, header.length);
    match header.typeFlag
    case Directory() =>
      (match Lookup(overlay, PATH_KEY)
       case Some(path) => Advanced([Entry.Directory(path)], here, None)
       case None => Advanced([Entry.Directory(header.name)], here, overlay))
    case ExtendedHeader() =>
      var subdata := ReadData(archive, here, header.length);
      if |subdata| == 0 then Ended
      else if |subdata| != header.length then Failed(CannotLoadBlock)
      else
        (match LoadLongName(subdata)
         case Err(e) => Failed(e)
         case Ok(dict) => Advanced([], skipTo, Some(dict)))
    case SymbolicLink() =>
      (match (Lookup(overlay, LINKPATH_KEY), Lookup(overlay, PATH_KEY))
       case (Some(linkpath), Some(path)) => Advanced([Entry.SymbolicLink(path, linkpath)], here, None)
       case (Some(linkpath), None) => Advanced([Entry.SymbolicLink(header.name, linkpath)], here, None)
       case (None, _) => Advanced([Entry.SymbolicLink(header.name, header.linkName)], here, overlay))
    case Regular() | ARegular() =>
      (match Lookup(overlay, PATH_KEY)
       case Some(path) => Advanced([File(path, here, header.length)], skipTo, None)
       case None => Advanced([File(header.name, here, header.length)], skipTo, overlay))
    case _ => Advanced([], skipTo, overlay)
  }

  /** One turn of the loop at position `pos` with `overlay` pending. */
  function ScanStep(archive: seq<Byte>, pos: nat, overlay: Option<Overlay>): (s: Step)
    ensures s.Advanced? ==> pos + BLOCK_SIZE <= |archive| && s.next >= pos + BLOCK_SIZE
    ensures s.Advanced? ==> |s.emitted| <= 1
    ensures s.Advanced? ==> s.next % BLOCK_SIZE == pos % BLOCK_SIZE
    ensures s.Advanced? && |s.emitted| == 1 && s.emitted[0].File? ==>
      s.emitted[0].offset == pos + BLOCK_SIZE &&
      s.next == pos + BLOCK_SIZE + s.emitted[0].length + Padding(s.emitted[0].length)
    ensures s.Failed? ==> s.error != EndOfFile
  {
    var data := ReadData(archive, pos, BLOCK_SIZE);
    if |data| == 0 then Ended
    else if |data| != BLOCK_SIZE then Failed(UnknownError)
    else
      var checkSum := Checksum(data);
      if checkSum == ZERO_BLOCK_CHECKSUM then Advanced([ZeroBlock], pos + BLOCK_SIZE, overlay)
      else
        match LoadHeader(data)
        case Err(e) => Failed(e)
        case Ok(header) =>
          if header.checkSum != checkSum then Failed(HeaderCheckSumError)
          else Dispatch(archive, pos + BLOCK_SIZE, header, overlay)
  }

  /** The scan's measure: bytes left before the end of the archive. */
  function Remaining(archive: seq<Byte>, pos: nat): nat
  {
    if pos <= |archive| then |archive| - pos else 0
  }

  /** The raw entries from `pos` to the end of the archive, zero blocks included; a failure
      anywhere discards everything. */
  function ScanFrom(archive: seq<Byte>, pos: nat, overlay: Option<Overlay>): (r: Result<seq<Entry>, TarError>)
    ensures r.Err? ==> r.error != EndOfFile
    decreases Remaining(archive, pos)
  {
    match ScanStep(archive, pos, overlay)
    case Ended => Ok([])
    case Failed(e) => Err(e)
    case Advanced(emitted, next, pending) =>
      match ScanFrom(archive, next, pending)
      case Err(e) => Err(e)
      case Ok(rest) => Ok(emitted + rest)
  }

  /** The check after the loop: the raw list must end in two zero blocks, which are dropped;
      earlier zero blocks stay. */
  function Finish(raw: seq<Entry>): (r: Result<seq<Entry>, TarError>)
    ensures r.Ok? <==> |raw| >= 2 && raw[|raw| - 2] == ZeroBlock && raw[|raw| - 1] == ZeroBlock
    ensures r.Ok? ==> raw == r.value + [ZeroBlock, ZeroBlock]
    ensures r.Err? ==> r.error == UnknownError
  {
    if |raw| < 2 then Err(UnknownError)
    else if raw[|raw| - 2] != ZeroBlock then Err(UnknownError)
    else if raw[|raw| - 1] != ZeroBlock then Err(UnknownError)
    else Ok(raw[..|raw| - 2])
  }

  /** `extractTarEntry(fh:)` on a handle at the start of `archive`, with nothing pending. */
  function ExtractTarEntry(archive: seq<Byte>): (r: Result<seq<Entry>, TarError>)
    ensures r.Err? ==> r.error != EndOfFile
  {
    match ScanFrom(archive, 0, None)
    case Err(e) => Err(e)
    case Ok(raw) => Finish(raw)
  }

  /** The entries gathered so far in front of what the rest of the scan yields. */
  function Prepend(gathered: seq<Entry>, rest: Result<seq<Entry>, TarError>): Result<seq<Entry>, TarError>
  {
    match rest
    case Ok(entries) => Ok(gathered + entries)
    case Err(e) => Err(e)
  }

  /** One turn of the scan: an advancing step puts its entries in front of the rest. */
  lemma ScanFromAdvanced(archive: seq<Byte>, pos: nat, overlay: Option<Overlay>,
                         emitted: seq<Entry>, next: nat, pending: Option<Overlay>)
    requires ScanStep(archive, pos, overlay) == Advanced(emitted, next, pending)
    ensures ScanFrom(archive, pos, overlay) == Prepend(emitted, ScanFrom(archive, next, pending))
  {
  }

  /** The scan stops where a step ends or fails. */
  lemma ScanFromStops(archive: seq<Byte>, pos: nat, overlay: Option<Overlay>)
    ensures ScanStep(archive, pos, overlay) == Ended ==> ScanFrom(archive, pos, overlay) == Ok([])
    ensures ScanStep(archive, pos, overlay).Failed? ==>
              ScanFrom(archive, pos, overlay) == Err(ScanStep(archive, pos, overlay).error)
  {
  }

  lemma PrependNothing(rest: Result<seq<Entry>, TarError>)
    ensures Prepend([], rest) == rest
  {
    if rest.Ok? {
      assert [] + rest.value == rest.value;
    }
  }

  lemma ExtractTarEntryOfScan(archive: seq<Byte>, raw: seq<Entry>)
    requires ScanFrom(archive, 0, None) == Ok(raw)
    ensures ExtractTarEntry(archive) == Finish(raw)
  {
  }

  lemma PrependTwice(first: seq<Entry>, second: seq<Entry>, rest: Result<seq<Entry>, TarError>)
    ensures Prepend(first, Prepend(second, rest)) == Prepend(first + second, rest)
  {
    if rest.Ok? {
      assert first + (second + rest.value) == (first + second) + rest.value;
    }
  }

  /** The loop of `extractTarEntry(fh:)` as written: one record per turn, an array that grows,
      the handle position and the pending dictionary carried from turn to turn. */
  method ExtractTarEntryLoop(archive: seq<Byte>) returns (r: Result<seq<Entry>, TarError>)
    ensures r == ExtractTarEntry(archive)
  {
    var gathered: seq<Entry> := [];
    var pos: nat := 0;
    var pending: Option<Overlay> := None;
    PrependNothing(ScanFrom(archive, 0, None));
    while true
      invariant Prepend(gathered, ScanFrom(archive, pos, pending)) == ScanFrom(archive, 0, None)
      decreases Remaining(archive, pos)
    {
      var step := ScanStep(archive, pos, pending);
      match step
      case Ended =>
        ScanFromStops(archive, pos, pending);
        assert gathered + [] == gathered;
        ExtractTarEntryOfScan(archive, gathered);
        r := Finish(gathered);
        return;
      case Failed(e) =>
        ScanFromStops(archive, pos, pending);
        r := Err(e);
        return;
      case Advanced(emitted, next, overlay) =>
        ScanFromAdvanced(archive, pos, pending, emitted, next, overlay);
        PrependTwice(gathered, emitted, ScanFrom(archive, next, overlay));
        gathered := gathered + emitted;
        pos := next;
        pending := overlay;
    }
  }

  /** `extractFile(fh:entry:)`: seek to the entry's offset and read its length. Only a file
      entry can be extracted, and only when the whole payload can be read. */
  function ExtractFile(archive: seq<Byte>, entry: Entry): (r: Result<seq<Byte>, TarError>)
    ensures r.Ok? <==> entry.File? && (entry.length == 0 || entry.offset + entry.length <= |archive|)
    ensures r.Ok? ==> |r.value| == entry.length
    ensures r.Ok? && entry.offset + entry.length <= |archive| ==>
      r.value == archive[entry.offset..entry.offset + entry.length]
    ensures r.Err? ==> r.error == UnknownError
  {
    match entry
    case File(_, offset, length) =>
      var data := ReadData(archive, offset, length);
      if |data| == length then Ok(data) else Err(UnknownError)
    case _ => Err(UnknownError)
  }
}
