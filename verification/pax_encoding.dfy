/** A pax record writer, the reference the record decoder is checked against. */
module PaxEncoding {
  import opened Wrappers
  import opened Bytes
  import opened Errors
  import opened Pax
  import opened Fields
  import Utf8

  /** `n` in decimal, without leading zeros. */
  function Decimal(n: nat): (r: seq<Byte>)
    ensures |r| >= 1 && AllDecimalDigits(r)
  {
    if n < 10 then [('0' as int + n) as Byte]
    else Decimal(n / 10) + [('0' as int + n % 10) as Byte]
  }

  lemma {:induction false} DecimalValueOfDecimal(n: nat)
    ensures DecimalValue(Decimal(n)) == n
  {
    if n >= 10 {
      var d := Decimal(n);
      assert d[..|d| - 1] == Decimal(n / 10);
      DecimalValueOfDecimal(n / 10);
    }
  }

  /** One record: its declared length counts every byte of the record, its own digits included. */
  datatype PaxRecord = PaxRecord(length: nat, key: seq<Byte>, value: seq<Byte>)

  /** The record text after the space: `key=value` and a line feed. */
  function RecordText(r: PaxRecord): seq<Byte>
  {
    r.key + [EQUALS] + r.value + [LF]
  }

  function EncodeRecord(r: PaxRecord): seq<Byte>
  {
    Decimal(r.length) + [SPACE] + RecordText(r)
  }

  /** A record whose length is its true length and whose key and value survive the match:
      a non-empty key without '=', a non-empty value, no line terminator in either. */
  predicate WellFormedRecord(r: PaxRecord)
  {
    && r.length == |Decimal(r.length)| + 1 + |RecordText(r)|
    && r.length <= INT64_MAX
    && |r.key| >= 1 && EQUALS !in r.key && |r.value| >= 1
    && Utf8.Valid(r.key) && Utf8.Valid(r.value)
    && NoLineBreak(r.key + [EQUALS] + r.value)
  }

  function EncodeRecords(rs: seq<PaxRecord>): seq<Byte>
  {
    if |rs| == 0 then [] else EncodeRecord(rs[0]) + EncodeRecords(rs[1..])
  }

  /** The dictionary the records describe: each key bound to the value of its last record. */
  function ToOverlay(rs: seq<PaxRecord>): Overlay
  {
    if |rs| == 0 then map[]
    else ToOverlay(rs[..|rs| - 1])[rs[|rs| - 1].key := rs[|rs| - 1].value]
  }

  function Texts(rs: seq<PaxRecord>): (ts: seq<seq<Byte>>)
    ensures |ts| == |rs| && forall i :: 0 <= i < |rs| ==> ts[i] == RecordText(rs[i])
  {
    seq(|rs|, i requires 0 <= i < |rs| => RecordText(rs[i]))
  }

  lemma RecordTextIsValid(r: PaxRecord)
    requires WellFormedRecord(r)
    ensures Utf8.Valid(RecordText(r))
  {
    Utf8.AsciiIsValid([EQUALS]);
    Utf8.AsciiIsValid([LF]);
    Utf8.ConcatIsValid(r.key, [EQUALS]);
    Utf8.ConcatIsValid(r.key + [EQUALS], r.value);
    Utf8.ConcatIsValid(r.key + [EQUALS] + r.value, [LF]);
  }

  /** A decimal numeral before a space reads back as its number. */
  lemma ParseDecimal(n: nat)
    requires n <= INT64_MAX
    ensures ParseInt(Decimal(n)) == Some(n)
  {
    DecimalValueOfDecimal(n);
  }

  /** The first space after a run of digits is the one that ends the run. */
  lemma SpaceAfterDigits(d: seq<Byte>, tail: seq<Byte>)
    requires AllDecimalDigits(d) && |tail| > 0 && tail[0] == SPACE
    ensures FirstIndexOf(d + tail, SPACE) == Some(|d|)
    ensures (d + tail)[..|d|] == d
  {
    var bytes := d + tail;
    assert bytes[|d|] == SPACE;
    assert forall j :: 0 <= j < |d| ==> bytes[j] == d[j] && bytes[j] != SPACE;
  }

  /** The length field of an encoded record reads back as the declared length. */
  lemma ReadLengthField(r: PaxRecord, rest: seq<Byte>)
    requires WellFormedRecord(r)
    ensures FirstIndexOf(EncodeRecord(r) + rest, SPACE) == Some(|Decimal(r.length)|)
    ensures ParseInt((EncodeRecord(r) + rest)[..|Decimal(r.length)|]) == Some(r.length)
  {
    var d := Decimal(r.length);
    assert EncodeRecord(r) + rest == d + ([SPACE] + RecordText(r) + rest);
    SpaceAfterDigits(d, [SPACE] + RecordText(r) + rest);
    ParseDecimal(r.length);
  }

  /** One encoded record in front of any bytes is split off as its text. */
  lemma SplitEncodedRecord(r: PaxRecord, rest: seq<Byte>)
    requires WellFormedRecord(r)
    ensures SplitRecords(EncodeRecord(r) + rest) ==
      match SplitRecords(rest)
      case Ok(texts) => Ok([RecordText(r)] + texts)
      case Err(e) => Err(e)
  {
    var bytes := EncodeRecord(r) + rest;
    ReadLengthField(r, rest);
    var d := Decimal(r.length);
    assert bytes[|d| + 1..r.length] == RecordText(r);
    RecordTextIsValid(r);
    assert bytes[r.length..] == rest;
  }

  lemma TextsOfCons(rs: seq<PaxRecord>)
    requires |rs| > 0
    ensures Texts(rs) == [RecordText(rs[0])] + Texts(rs[1..])
  {
    assert Texts(rs)[1..] == Texts(rs[1..]);
  }

  /** The record splitter recovers the text of every encoded record. */
  lemma {:induction false} SplitEncodedRecords(rs: seq<PaxRecord>)
    requires forall i :: 0 <= i < |rs| ==> WellFormedRecord(rs[i])
    ensures SplitRecords(EncodeRecords(rs)) == Ok(Texts(rs))
    decreases |rs|
  {
    if |rs| > 0 {
      hide SplitRecords, WellFormedRecord, EncodeRecord;
      var tail := EncodeRecords(rs[1..]);
      assert EncodeRecords(rs) == EncodeRecord(rs[0]) + tail;
      SplitEncodedRecords(rs[1..]);
      SplitEncodedRecord(rs[0], tail);
      TextsOfCons(rs);
    }
  }

  /** A line feed ends a line that has no terminator of its own. */
  lemma LineBeforeFeed(line: seq<Byte>)
    requires NoLineBreak(line)
    ensures LineLength(line + [LF]) == |line|
  {
    hide LineLength;
    var text := line + [LF];
    forall i | 0 <= i < |line| ensures BreakLength(text[i..]) == 0 {
      assert text[i..] == line[i..] + [LF];
      NoBreakBeforeFeed(line[i..]);
    }
    assert text[|line|..] == [LF];
  }

  /** Appending a line feed does not make a terminator of the bytes in front of it. */
  lemma NoBreakBeforeFeed(a: seq<Byte>)
    requires |a| > 0 && BreakLength(a) == 0
    ensures BreakLength(a + [LF]) == 0
  {
    var t := a + [LF];
    assert t[0] == a[0];
    assert |a| >= 2 ==> t[1] == a[1];
    assert |a| >= 3 ==> t[2] == a[2];
  }

  /** A record line splits at the '=' that ends its key. */
  lemma MatchOfRecordLine(r: PaxRecord)
    requires WellFormedRecord(r)
    ensures MatchLine(r.key + [EQUALS] + r.value) == Some((r.key, r.value))
  {
    var line := r.key + [EQUALS] + r.value;
    assert IsSplit(line, |r.key|);
    var m := MatchLine(line);
    var k := m.value.0;
    assert |k| == |r.key|;
    assert k == line[..|k|] == r.key;
  }

  /** The key=value match of a record's text is its key and value. */
  lemma FirstMatchOfRecordText(r: PaxRecord)
    requires WellFormedRecord(r)
    ensures FirstMatch(RecordText(r)) == Some((r.key, r.value))
  {
    var line := r.key + [EQUALS] + r.value;
    assert RecordText(r) == line + [LF];
    LineBeforeFeed(line);
    assert (line + [LF])[..|line|] == line;
    MatchOfRecordLine(r);
  }

  lemma ApplyRecordText(m: Overlay, r: PaxRecord)
    requires WellFormedRecord(r)
    ensures ApplyRecord(m, RecordText(r)) == m[r.key := r.value]
  {
    FirstMatchOfRecordText(r);
  }

  /** Round trip: the decoder turns encoded records into the dictionary they describe. */
  lemma {:induction false} LoadEncodedRecords(rs: seq<PaxRecord>)
    requires forall i :: 0 <= i < |rs| ==> WellFormedRecord(rs[i])
    ensures LoadLongName(EncodeRecords(rs)) == Ok(ToOverlay(rs))
  {
    SplitEncodedRecords(rs);
    FoldOfTexts(rs);
  }

  lemma {:induction false} FoldOfTexts(rs: seq<PaxRecord>)
    requires forall i :: 0 <= i < |rs| ==> WellFormedRecord(rs[i])
    ensures Fold(Texts(rs)) == ToOverlay(rs)
    decreases |rs|
  {
    var n := |rs|;
    if n > 0 {
      var front := rs[..n - 1];
      assert forall i :: 0 <= i < n - 1 ==> front[i] == rs[i];
      assert Texts(rs)[..n - 1] == Texts(front);
      FoldOfTexts(front);
      ApplyRecordText(Fold(Texts(front)), rs[n - 1]);
      assert Fold(Texts(rs)) == ApplyRecord(Fold(Texts(front)), RecordText(rs[n - 1]));
    }
  }

  /** The windowed decoder reads back records encoded anywhere inside a larger buffer,
      whatever surrounds them. */
  lemma TraceEncodedWindow(before: seq<Byte>, rs: seq<PaxRecord>, after: seq<Byte>)
    requires forall i :: 0 <= i < |rs| ==> WellFormedRecord(rs[i])
    ensures TraceLongName(before + EncodeRecords(rs) + after, |before|, |EncodeRecords(rs)|) == Ok(ToOverlay(rs))
  {
    var data := before + EncodeRecords(rs) + after;
    assert data[|before|..|before| + |EncodeRecords(rs)|] == EncodeRecords(rs);
    LoadEncodedRecords(rs);
  }
}
