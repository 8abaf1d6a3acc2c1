/** What the scan does, stated about the archive rather than about one turn of the loop: how a
    record at a position is handled, how the pending dictionary is used up, and where the
    catalog's files lie. */
module ScannerProperties {
  import opened Wrappers
  import opened Bytes
  import opened Errors
  import opened Fields
  import opened Header
  import opened Pax
  import opened Entries
  import opened Scanner

  /** The header the scan decodes at `pos`, if any: a whole record that is not a zero block,
      decodes, and carries the checksum it sums to. */
  function DecodedHeader(archive: seq<Byte>, pos: nat): Option<HeaderRecord>
  {
    if pos + BLOCK_SIZE > |archive| then None
    else
      var block := archive[pos..pos + BLOCK_SIZE];
      if Checksum(block) == ZERO_BLOCK_CHECKSUM then None
      else
        match LoadHeader(block)
        case Err(_) => None
        case Ok(h) => if h.checkSum == Checksum(block) then Some(h) else None
  }

  predicate HeaderAt(archive: seq<Byte>, pos: nat, h: HeaderRecord)
  {
    DecodedHeader(archive, pos) == Some(h)
  }

  lemma HeaderAtFacts(archive: seq<Byte>, pos: nat, h: HeaderRecord)
    requires HeaderAt(archive, pos, h)
    ensures pos + BLOCK_SIZE <= |archive|
    ensures Checksum(archive[pos..pos + BLOCK_SIZE]) != ZERO_BLOCK_CHECKSUM
    ensures LoadHeader(archive[pos..pos + BLOCK_SIZE]) == Ok(h)
    ensures h.checkSum == Checksum(archive[pos..pos + BLOCK_SIZE])
  {
  }

  /** Where the scan goes after the payload of `h`, read just after its header at `pos`. */
  function PastPayload(pos: nat, h: HeaderRecord): nat
  {
    pos + BLOCK_SIZE + h.length + Padding(h.length)
  }

  /** A turn at a decodable header reads the record and hands it to the switch on its type. */
  lemma StepAtHeader(archive: seq<Byte>, pos: nat, overlay: Option<Overlay>, h: HeaderRecord)
    requires HeaderAt(archive, pos, h)
    ensures ScanStep(archive, pos, overlay) == Dispatch(archive, pos + BLOCK_SIZE, h, overlay)
  {
    assert ReadData(archive, pos, BLOCK_SIZE) == archive[pos..pos + BLOCK_SIZE];
  }

  lemma DispatchDirectory(archive: seq<Byte>, here: nat, overlay: Option<Overlay>, h: HeaderRecord)
    requires h.typeFlag.Directory?
    ensures Lookup(overlay, PATH_KEY).Some? ==>
      Dispatch(archive, here, h, overlay) == Advanced([Entry.Directory(overlay.value[PATH_KEY])], here, None)
    ensures Lookup(overlay, PATH_KEY).None? ==>
      Dispatch(archive, here, h, overlay) == Advanced([Entry.Directory(h.name)], here, overlay)
  {
  }

  lemma DispatchExtendedHeader(archive: seq<Byte>, here: nat, overlay: Option<Overlay>,
                               other: Option<Overlay>, h: HeaderRecord)
    requires h.typeFlag.ExtendedHeader?
    ensures Dispatch(archive, here, h, overlay) == Dispatch(archive, here, h, other)
    ensures Dispatch(archive, here, h, overlay) == Ended <==> h.length == 0 || here >= |archive|
  {
  }

  lemma DispatchExtendedHeaderPayload(archive: seq<Byte>, here: nat, overlay: Option<Overlay>, h: HeaderRecord)
    requires h.typeFlag.ExtendedHeader?
    ensures Dispatch(archive, here, h, overlay).Advanced? ==>
      var s := Dispatch(archive, here, h, overlay);
      s.emitted == [] && s.next == here + h.length + Padding(h.length) && s.overlay.Some? &&
      here + h.length <= |archive| &&
      LoadLongName(archive[here..here + h.length]) == Ok(s.overlay.value)
  {
    hide LoadLongName;
  }

  lemma DispatchEndsOnlyOnExtendedHeader(archive: seq<Byte>, here: nat, overlay: Option<Overlay>, h: HeaderRecord)
    requires !h.typeFlag.ExtendedHeader?
    ensures Dispatch(archive, here, h, overlay).Advanced?
  {
  }

  /** A record that is zero outside its checksum field is a zero block, whatever that field
      holds; it is appended without decoding and the pending dictionary stays. */
  lemma ZeroRecordStep(archive: seq<Byte>, pos: nat, overlay: Option<Overlay>)
    requires pos + BLOCK_SIZE <= |archive|
    requires forall i :: pos <= i < pos + BLOCK_SIZE && !InChecksumField(i - pos) ==> archive[i] == 0
    ensures ScanStep(archive, pos, overlay) == Advanced([ZeroBlock], pos + BLOCK_SIZE, overlay)
  {
    var block := archive[pos..pos + BLOCK_SIZE];
    assert forall i :: 0 <= i < |block| && !InChecksumField(i) ==> block[i] == 0 by {
      forall i | 0 <= i < |block| && !InChecksumField(i)
        ensures block[i] == 0
      {
        assert block[i] == archive[pos + i];
      }
    }
    ZeroBlockChecksum(block);
  }

  /** The only ways a turn ends the scan normally: nothing is left to read, or an extended
      header's payload read comes back empty (a size of zero, or a header that is the last
      record of the archive). */
  lemma EndedIff(archive: seq<Byte>, pos: nat, overlay: Option<Overlay>)
    ensures ScanStep(archive, pos, overlay) == Ended <==>
      pos >= |archive| ||
      (DecodedHeader(archive, pos).Some? &&
       DecodedHeader(archive, pos).value.typeFlag == ExtendedHeader &&
       (DecodedHeader(archive, pos).value.length == 0 || pos + BLOCK_SIZE == |archive|))
  {
    if pos + BLOCK_SIZE <= |archive| {
      var block := archive[pos..pos + BLOCK_SIZE];
      assert ReadData(archive, pos, BLOCK_SIZE) == block;
      match DecodedHeader(archive, pos)
      case Some(h) =>
        StepAtHeader(archive, pos, overlay, h);
        if h.typeFlag.ExtendedHeader? {
          DispatchExtendedHeader(archive, pos + BLOCK_SIZE, overlay, overlay, h);
        } else {
          DispatchEndsOnlyOnExtendedHeader(archive, pos + BLOCK_SIZE, overlay, h);
        }
      case None =>
    }
  }

  /** An extended header whose payload read comes back short but not empty stops the scan
      with `cannotLoadBlock`; only an empty read ends it. */
  lemma ExtendedHeaderShortRead(archive: seq<Byte>, pos: nat, overlay: Option<Overlay>, h: HeaderRecord)
    requires HeaderAt(archive, pos, h) && h.typeFlag.ExtendedHeader?
    requires pos + BLOCK_SIZE < |archive| < pos + BLOCK_SIZE + h.length
    ensures ScanStep(archive, pos, overlay) == Failed(CannotLoadBlock)
  {
    hide ScanStep, Dispatch, HeaderAt;
    StepAtHeader(archive, pos, overlay, h);
    DispatchShortRead(archive, pos + BLOCK_SIZE, overlay, h);
  }

  lemma DispatchShortRead(archive: seq<Byte>, here: nat, overlay: Option<Overlay>, h: HeaderRecord)
    requires h.typeFlag.ExtendedHeader? && here < |archive| < here + h.length
    ensures Dispatch(archive, here, h, overlay) == Failed(CannotLoadBlock)
  {
    assert 0 < |ReadData(archive, here, h.length)| < h.length;
  }

  /** A read of 1 to 511 bytes is an error, not the end of the archive. */
  lemma ShortRecordFails(archive: seq<Byte>, pos: nat, overlay: Option<Overlay>)
    requires pos < |archive| < pos + BLOCK_SIZE
    ensures ScanStep(archive, pos, overlay) == Failed(UnknownError)
  {
    assert 0 < |ReadData(archive, pos, BLOCK_SIZE)| < BLOCK_SIZE;
  }

  /** A record that decodes but whose stored checksum is not what it sums to stops the scan. */
  lemma ChecksumMismatchFails(archive: seq<Byte>, pos: nat, overlay: Option<Overlay>, h: HeaderRecord)
    requires pos + BLOCK_SIZE <= |archive|
    requires Checksum(archive[pos..pos + BLOCK_SIZE]) != ZERO_BLOCK_CHECKSUM
    requires LoadHeader(archive[pos..pos + BLOCK_SIZE]) == Ok(h)
    requires h.checkSum != Checksum(archive[pos..pos + BLOCK_SIZE])
    ensures ScanStep(archive, pos, overlay) == Failed(HeaderCheckSumError)
  {
    assert ReadData(archive, pos, BLOCK_SIZE) == archive[pos..pos + BLOCK_SIZE];
  }

  /** A record that is not a zero block and does not decode stops the scan with the decoding
      error. */
  lemma DecodeErrorFails(archive: seq<Byte>, pos: nat, overlay: Option<Overlay>)
    requires pos + BLOCK_SIZE <= |archive|
    requires Checksum(archive[pos..pos + BLOCK_SIZE]) != ZERO_BLOCK_CHECKSUM
    requires LoadHeader(archive[pos..pos + BLOCK_SIZE]).Err?
    ensures ScanStep(archive, pos, overlay) == Failed(LoadHeader(archive[pos..pos + BLOCK_SIZE]).error)
  {
    assert ReadData(archive, pos, BLOCK_SIZE) == archive[pos..pos + BLOCK_SIZE];
  }

  /** Corrupting one byte outside the checksum field of a header the scan accepts makes the scan
      stop there: with a checksum error when the record still decodes, with the decoding error
      otherwise. The one way out is a change that leaves a zero block. */
  lemma CorruptedHeaderFails(archive: seq<Byte>, pos: nat, overlay: Option<Overlay>, h: HeaderRecord,
                             i: nat, x: Byte)
    requires HeaderAt(archive, pos, h)
    requires pos <= i < pos + BLOCK_SIZE && !InChecksumField(i - pos) && x != archive[i]
    requires Checksum(archive[i := x][pos..pos + BLOCK_SIZE]) != ZERO_BLOCK_CHECKSUM
    ensures ScanStep(archive[i := x], pos, overlay).Failed?
    ensures LoadHeader(archive[i := x][pos..pos + BLOCK_SIZE]).Ok? ==>
      ScanStep(archive[i := x], pos, overlay) == Failed(HeaderCheckSumError)
  {
    var corrupted := archive[i := x];
    var c := corrupted[pos..pos + BLOCK_SIZE];
    HeaderAtFacts(archive, pos, h);
    CorruptedRecord(archive, pos, h, i, x);
    if LoadHeader(c).Ok? {
      ChecksumMismatchFails(corrupted, pos, overlay, LoadHeader(c).value);
    } else {
      DecodeErrorFails(corrupted, pos, overlay);
    }
  }

  lemma CorruptedRecord(archive: seq<Byte>, pos: nat, h: HeaderRecord, i: nat, x: Byte)
    requires pos + BLOCK_SIZE <= |archive|
    requires LoadHeader(archive[pos..pos + BLOCK_SIZE]) == Ok(h) && h.checkSum == Checksum(archive[pos..pos + BLOCK_SIZE])
    requires pos <= i < pos + BLOCK_SIZE && !InChecksumField(i - pos) && x != archive[i]
    ensures LoadHeader(archive[i := x][pos..pos + BLOCK_SIZE]).Ok? ==>
      LoadHeader(archive[i := x][pos..pos + BLOCK_SIZE]).value.checkSum != Checksum(archive[i := x][pos..pos + BLOCK_SIZE])
  {
    var b := archive[pos..pos + BLOCK_SIZE];
    var c := archive[i := x][pos..pos + BLOCK_SIZE];
    SliceOfUpdate(archive, pos, pos + BLOCK_SIZE, i, x);
    if LoadHeader(c).Ok? {
      OneByteChangeBreaksChecksum(b, c, i - pos);
    }
  }

  lemma SliceOfUpdate(s: seq<Byte>, lo: nat, hi: nat, i: nat, x: Byte)
    requires lo <= i < hi <= |s|
    ensures |s[i := x][lo..hi]| == hi - lo
    ensures s[i := x][lo..hi] == s[lo..hi][i - lo := x]
    ensures s[i := x][lo..hi][i - lo] == x && s[lo..hi][i - lo] == s[i]
  {
  }

  /** A directory takes the pending "path" in place of its header name and uses the dictionary
      up; without one the dictionary stays pending. Nothing is skipped. */
  lemma DirectoryStep(archive: seq<Byte>, pos: nat, overlay: Option<Overlay>, h: HeaderRecord)
    requires HeaderAt(archive, pos, h) && h.typeFlag.Directory?
    ensures Lookup(overlay, PATH_KEY).Some? ==>
      ScanStep(archive, pos, overlay) ==
        Advanced([Entry.Directory(overlay.value[PATH_KEY])], pos + BLOCK_SIZE, None)
    ensures Lookup(overlay, PATH_KEY).None? ==>
      ScanStep(archive, pos, overlay) == Advanced([Entry.Directory(h.name)], pos + BLOCK_SIZE, overlay)
  {
    StepAtHeader(archive, pos, overlay, h);
    DispatchDirectory(archive, pos + BLOCK_SIZE, overlay, h);
  }

  /** A regular file (flag '0' or NUL) starts right after its header, has the header's size, and
      the scan resumes after its padded payload; the pending "path" renames it and is used up. */
  lemma FileStep(archive: seq<Byte>, pos: nat, overlay: Option<Overlay>, h: HeaderRecord)
    requires HeaderAt(archive, pos, h) && (h.typeFlag == Regular || h.typeFlag == ARegular)
    ensures Lookup(overlay, PATH_KEY).Some? ==>
      ScanStep(archive, pos, overlay) ==
        Advanced([File(overlay.value[PATH_KEY], pos + BLOCK_SIZE, h.length)], PastPayload(pos, h), None)
    ensures Lookup(overlay, PATH_KEY).None? ==>
      ScanStep(archive, pos, overlay) ==
        Advanced([File(h.name, pos + BLOCK_SIZE, h.length)], PastPayload(pos, h), overlay)
  {
    StepAtHeader(archive, pos, overlay, h);
  }

  /** A symbolic link: "path" and "linkpath" together rename both sides, "linkpath" alone
      replaces only the target, and in both cases the dictionary is used up; without a
      "linkpath" the header's names are used and the dictionary stays pending, even when it
      holds a "path". */
  lemma SymbolicLinkStep(archive: seq<Byte>, pos: nat, overlay: Option<Overlay>, h: HeaderRecord)
    requires HeaderAt(archive, pos, h) && h.typeFlag.SymbolicLink?
    ensures Lookup(overlay, LINKPATH_KEY).Some? && Lookup(overlay, PATH_KEY).Some? ==>
      ScanStep(archive, pos, overlay) ==
        Advanced([Entry.SymbolicLink(overlay.value[PATH_KEY], overlay.value[LINKPATH_KEY])],
                 pos + BLOCK_SIZE, None)
    ensures Lookup(overlay, LINKPATH_KEY).Some? && Lookup(overlay, PATH_KEY).None? ==>
      ScanStep(archive, pos, overlay) ==
        Advanced([Entry.SymbolicLink(h.name, overlay.value[LINKPATH_KEY])], pos + BLOCK_SIZE, None)
    ensures Lookup(overlay, LINKPATH_KEY).None? ==>
      ScanStep(archive, pos, overlay) ==
        Advanced([Entry.SymbolicLink(h.name, h.linkName)], pos + BLOCK_SIZE, overlay)
  {
    StepAtHeader(archive, pos, overlay, h);
  }

  /** Every other kind (hard links, devices, FIFOs, reserved and unknown flags, GNU long-name
      records among them) emits nothing, skips its padded payload, and leaves the pending
      dictionary for a later entry. */
  lemma SkippedKindStep(archive: seq<Byte>, pos: nat, overlay: Option<Overlay>, h: HeaderRecord)
    requires HeaderAt(archive, pos, h)
    requires !h.typeFlag.Directory? && !h.typeFlag.ExtendedHeader? && !h.typeFlag.SymbolicLink? &&
             !h.typeFlag.Regular? && !h.typeFlag.ARegular?
    ensures ScanStep(archive, pos, overlay) == Advanced([], PastPayload(pos, h), overlay)
  {
    StepAtHeader(archive, pos, overlay, h);
  }

  /** An extended header replaces whatever was pending rather than merging with it: the turn
      does not depend on the old dictionary. */
  lemma ExtendedHeaderReplaces(archive: seq<Byte>, pos: nat, overlay: Option<Overlay>,
                               other: Option<Overlay>, h: HeaderRecord)
    requires HeaderAt(archive, pos, h) && h.typeFlag.ExtendedHeader?
    ensures ScanStep(archive, pos, overlay) == ScanStep(archive, pos, other)
  {
    StepAtHeader(archive, pos, overlay, h);
    StepAtHeader(archive, pos, other, h);
    DispatchExtendedHeader(archive, pos + BLOCK_SIZE, overlay, other, h);
  }

  /** An extended header that the scan gets past emits nothing, skips its padded payload, and
      leaves pending exactly the dictionary that payload holds. */
  lemma ExtendedHeaderStep(archive: seq<Byte>, pos: nat, overlay: Option<Overlay>, h: HeaderRecord)
    requires HeaderAt(archive, pos, h) && h.typeFlag.ExtendedHeader?
    ensures ScanStep(archive, pos, overlay).Advanced? ==>
      var s := ScanStep(archive, pos, overlay);
      s.emitted == [] && s.next == PastPayload(pos, h) && s.overlay.Some? &&
      pos + BLOCK_SIZE + h.length <= |archive| &&
      LoadLongName(archive[pos + BLOCK_SIZE..pos + BLOCK_SIZE + h.length]) == Ok(s.overlay.value)
  {
    hide ScanStep, Dispatch, LoadLongName, HeaderAt;
    StepAtHeader(archive, pos, overlay, h);
    DispatchExtendedHeaderPayload(archive, pos + BLOCK_SIZE, overlay, h);
  }

  /** Where a file's payload and padding end, which is where the scan reads next. */
  function FileEnd(e: Entry): nat
    requires e.File?
  {
    e.offset + e.length + Padding(e.length)
  }

  /** Every file of `raw` starts after the record at `pos`, on the same record boundary. */
  predicate FilesAfter(raw: seq<Entry>, pos: nat)
  {
    forall k :: 0 <= k < |raw| && raw[k].File? ==>
      raw[k].offset >= pos + BLOCK_SIZE && raw[k].offset % BLOCK_SIZE == pos % BLOCK_SIZE
  }

  /** Every file of `raw` except possibly the last entry is followed by a whole record. */
  predicate FilesFollowed(raw: seq<Entry>, archive: seq<Byte>)
  {
    forall k :: 0 <= k < |raw| - 1 && raw[k].File? ==> FileEnd(raw[k]) + BLOCK_SIZE <= |archive|
  }

  /** Files come in archive order with at least one header record between two payloads. */
  predicate FilesOrdered(raw: seq<Entry>)
  {
    forall j, k :: 0 <= j < k < |raw| && raw[j].File? && raw[k].File? ==>
      FileEnd(raw[j]) + BLOCK_SIZE <= raw[k].offset
  }

  /** Where the files of a raw list found by a scan started at `pos` lie. */
  predicate FilesLaidOut(raw: seq<Entry>, archive: seq<Byte>, pos: nat)
  {
    FilesAfter(raw, pos) && FilesFollowed(raw, archive) && FilesOrdered(raw)
  }

  /** What one turn contributes to the layout: at most one entry, a file right after the header
      whose padded payload ends where the scan reads next. */
  predicate TurnShape(emitted: seq<Entry>, pos: nat, next: nat)
  {
    next >= pos + BLOCK_SIZE && next % BLOCK_SIZE == pos % BLOCK_SIZE && |emitted| <= 1 &&
    (|emitted| == 1 && emitted[0].File? ==> emitted[0].offset == pos + BLOCK_SIZE && FileEnd(emitted[0]) == next)
  }

  lemma AfterPrepend(emitted: seq<Entry>, rest: seq<Entry>, pos: nat, next: nat)
    requires TurnShape(emitted, pos, next) && FilesAfter(rest, next)
    ensures FilesAfter(emitted + rest, pos)
  {
    var raw := emitted + rest;
    forall k | 0 <= k < |raw| && raw[k].File?
      ensures raw[k].offset >= pos + BLOCK_SIZE && raw[k].offset % BLOCK_SIZE == pos % BLOCK_SIZE
    {
      if k >= |emitted| {
        assert raw[k] == rest[k - |emitted|];
      }
    }
  }

  lemma FollowedPrepend(emitted: seq<Entry>, rest: seq<Entry>, archive: seq<Byte>, pos: nat, next: nat)
    requires TurnShape(emitted, pos, next) && FilesFollowed(rest, archive)
    requires |rest| > 0 ==> next + BLOCK_SIZE <= |archive|
    ensures FilesFollowed(emitted + rest, archive)
  {
    var raw := emitted + rest;
    forall k | 0 <= k < |raw| - 1 && raw[k].File?
      ensures FileEnd(raw[k]) + BLOCK_SIZE <= |archive|
    {
      if k >= |emitted| {
        assert raw[k] == rest[k - |emitted|];
      }
    }
  }

  lemma OrderedPrepend(emitted: seq<Entry>, rest: seq<Entry>, pos: nat, next: nat)
    requires TurnShape(emitted, pos, next) && FilesAfter(rest, next) && FilesOrdered(rest)
    ensures FilesOrdered(emitted + rest)
  {
    var raw := emitted + rest;
    forall j, k | 0 <= j < k < |raw| && raw[j].File? && raw[k].File?
      ensures FileEnd(raw[j]) + BLOCK_SIZE <= raw[k].offset
    {
      assert raw[k] == rest[k - |emitted|];
      if j >= |emitted| {
        assert raw[j] == rest[j - |emitted|];
      }
    }
  }

  /** Every raw list a scan from `pos` produces is laid out as above, and a scan that finds
      anything had a whole record to read at `pos`. */
  lemma {:induction false} ScanLayout(archive: seq<Byte>, pos: nat, overlay: Option<Overlay>)
    ensures ScanFrom(archive, pos, overlay).Ok? ==>
      FilesLaidOut(ScanFrom(archive, pos, overlay).value, archive, pos) &&
      (|ScanFrom(archive, pos, overlay).value| > 0 ==> pos + BLOCK_SIZE <= |archive|)
    decreases Remaining(archive, pos)
  {
    match ScanStep(archive, pos, overlay)
    case Ended =>
      ScanFromStops(archive, pos, overlay);
    case Failed(_) =>
      ScanFromStops(archive, pos, overlay);
    case Advanced(emitted, next, pending) =>
      ScanFromAdvanced(archive, pos, overlay, emitted, next, pending);
      ScanLayout(archive, next, pending);
      var rest := ScanFrom(archive, next, pending);
      if rest.Ok? {
        assert TurnShape(emitted, pos, next);
        AfterPrepend(emitted, rest.value, pos, next);
        FollowedPrepend(emitted, rest.value, archive, pos, next);
        OrderedPrepend(emitted, rest.value, pos, next);
      }
  }

  /** The files of a catalog: each starts on a record boundary, lies inside the archive, and
      `extractFile` returns exactly its payload; payloads come in archive order and never
      overlap, with at least a header record between two of them. */
  lemma CatalogFiles(archive: seq<Byte>, catalog: seq<Entry>)
    requires ExtractTarEntry(archive) == Ok(catalog)
    ensures forall k :: 0 <= k < |catalog| && catalog[k].File? ==>
      catalog[k].offset % BLOCK_SIZE == 0 &&
      catalog[k].offset + catalog[k].length <= |archive| &&
      ExtractFile(archive, catalog[k]) ==
        Ok(archive[catalog[k].offset..catalog[k].offset + catalog[k].length])
    ensures forall j, k :: 0 <= j < k < |catalog| && catalog[j].File? && catalog[k].File? ==>
      catalog[j].offset + catalog[j].length + BLOCK_SIZE <= catalog[k].offset
  {
    CatalogLaidOut(archive, catalog);
    LaidOutFiles(archive, catalog);
  }

  /** Files laid out from the start of the archive are extracted exactly and in order. */
  lemma LaidOutFiles(archive: seq<Byte>, catalog: seq<Entry>)
    requires FilesAfter(catalog, 0) && FilesOrdered(catalog)
    requires forall k :: 0 <= k < |catalog| && catalog[k].File? ==> FileEnd(catalog[k]) + BLOCK_SIZE <= |archive|
    ensures forall k :: 0 <= k < |catalog| && catalog[k].File? ==>
      catalog[k].offset % BLOCK_SIZE == 0 &&
      catalog[k].offset + catalog[k].length <= |archive| &&
      ExtractFile(archive, catalog[k]) ==
        Ok(archive[catalog[k].offset..catalog[k].offset + catalog[k].length])
    ensures forall j, k :: 0 <= j < k < |catalog| && catalog[j].File? && catalog[k].File? ==>
      catalog[j].offset + catalog[j].length + BLOCK_SIZE <= catalog[k].offset
  {
    forall k | 0 <= k < |catalog| && catalog[k].File?
      ensures catalog[k].offset % BLOCK_SIZE == 0
      ensures catalog[k].offset + catalog[k].length <= |archive|
      ensures ExtractFile(archive, catalog[k]) ==
        Ok(archive[catalog[k].offset..catalog[k].offset + catalog[k].length])
    {
      var e := catalog[k];
      assert e.offset % BLOCK_SIZE == 0 % BLOCK_SIZE;
      assert FileEnd(e) + BLOCK_SIZE <= |archive|;
    }
  }

  /** The layout facts of the raw list, for the catalog that is its front part. */
  lemma CatalogLaidOut(archive: seq<Byte>, catalog: seq<Entry>)
    requires ExtractTarEntry(archive) == Ok(catalog)
    ensures FilesAfter(catalog, 0) && FilesOrdered(catalog)
    ensures forall k :: 0 <= k < |catalog| && catalog[k].File? ==> FileEnd(catalog[k]) + BLOCK_SIZE <= |archive|
  {
    var raw := ScanFrom(archive, 0, None).value;
    ExtractTarEntryOfScan(archive, raw);
    ScanLayout(archive, 0, None);
    assert raw == catalog + [ZeroBlock, ZeroBlock];
    assert forall k :: 0 <= k < |catalog| ==> raw[k] == catalog[k];
  }

  /** The end check undoes appending the two closing zero blocks, whatever came before them,
      zero blocks included. */
  lemma FinishDropsClosingPair(entries: seq<Entry>)
    ensures Finish(entries + [ZeroBlock, ZeroBlock]) == Ok(entries)
  {
    var raw := entries + [ZeroBlock, ZeroBlock];
    assert raw[..|raw| - 2] == entries;
  }

  /** Conversely, an extended header whose whole payload is in the archive and decodes moves the
      scan past that payload with its dictionary pending. */
  lemma ExtendedHeaderAdvances(archive: seq<Byte>, pos: nat, overlay: Option<Overlay>, h: HeaderRecord, dict: Overlay)
    requires HeaderAt(archive, pos, h) && h.typeFlag.ExtendedHeader?
    requires h.length > 0 && pos + BLOCK_SIZE + h.length <= |archive|
    requires LoadLongName(archive[pos + BLOCK_SIZE..pos + BLOCK_SIZE + h.length]) == Ok(dict)
    ensures ScanStep(archive, pos, overlay) == Advanced([], PastPayload(pos, h), Some(dict))
  {
    hide ScanStep, Dispatch, LoadLongName, HeaderAt, ReadData;
    var here := pos + BLOCK_SIZE;
    var payload := ReadData(archive, here, h.length);
    assert payload == archive[pos + BLOCK_SIZE..pos + BLOCK_SIZE + h.length];
    DispatchExtendedHeaderAdvances(archive, here, overlay, h, payload, dict);
    StepAtHeader(archive, pos, overlay, h);
  }

  lemma DispatchExtendedHeaderAdvances(archive: seq<Byte>, here: nat, overlay: Option<Overlay>, h: HeaderRecord, payload: seq<Byte>, dict: Overlay)
    requires h.typeFlag.ExtendedHeader? && h.length > 0 && |payload| == h.length
    requires ReadData(archive, here, h.length) == payload && LoadLongName(payload) == Ok(dict)
    ensures Dispatch(archive, here, h, overlay) == Advanced([], here + h.length + Padding(h.length), Some(dict))
  {
    hide LoadLongName;
  }
}
