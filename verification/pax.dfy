/** The payload of an extended header: a run of `<decimal length> <space> key=value\n` records
    (the record format of the IEEE Std 1003.1 `pax` utility, "pax Extended Header"), folded into
    a dictionary that overrides the next entry's name or link target. */
module Pax {
  import opened Wrappers
  import opened Bytes
  import opened Errors
  import opened Fields
  import Utf8

  const INT64_MIN: int := -0x8000_0000_0000_0000
  const LF: Byte := 10

  /** The pending dictionary: key text to value text, both as UTF-8 bytes. */
  type Overlay = map<seq<Byte>, seq<Byte>>

  predicate IsDecimalDigit(b: Byte)
  {
    '0' as int <= b <= '9' as int
  }

  predicate AllDecimalDigits(s: seq<Byte>)
  {
    forall i :: 0 <= i < |s| ==> IsDecimalDigit(s[i])
  }

  function DecimalValue(digits: seq<Byte>): nat
    requires AllDecimalDigits(digits)
  {
    if |digits| == 0 then 0
    else DecimalValue(digits[..|digits| - 1]) * 10 + (digits[|digits| - 1] - '0' as int)
  }

  /** Swift's `Int(_:)` on a string: one optional sign, then one or more decimal digits, and the
      value must fit in 64 bits. Anything else, including text that is not UTF-8, gives nil. */
  function ParseInt(s: seq<Byte>): (r: Option<int>)
    ensures r.Some? ==> INT64_MIN <= r.value <= INT64_MAX
    ensures r.Some? && r.value < 0 ==> |s| > 0 && s[0] == '-' as int
  {
    var signed := |s| > 0 && (s[0] == '-' as int || s[0] == '+' as int);
    var digits := if signed then s[1..] else s;
    if |digits| == 0 || !AllDecimalDigits(digits) then None
    else
      var v: int := if signed && s[0] == '-' as int then 0 - (DecimalValue(digits) as int) else DecimalValue(digits);
      if INT64_MIN <= v <= INT64_MAX then Some(v) else None
  }

  /** An optional sign and at least one decimal digit parse to the signed value of the digits
      when it fits in 64 bits, and to nothing when it does not. */
  lemma ParseIntOfSignedDigits(sign: seq<Byte>, d: seq<Byte>)
    requires sign == [] || sign == [MINUS] || sign == [PLUS]
    requires |d| > 0 && AllDecimalDigits(d)
    ensures sign != [MINUS] && DecimalValue(d) <= INT64_MAX ==> ParseInt(sign + d) == Some(DecimalValue(d))
    ensures sign != [MINUS] && DecimalValue(d) > INT64_MAX ==> ParseInt(sign + d) == None
    ensures sign == [MINUS] && DecimalValue(d) <= -INT64_MIN ==> ParseInt(sign + d) == Some(0 - DecimalValue(d) as int)
    ensures sign == [MINUS] && DecimalValue(d) > -INT64_MIN ==> ParseInt(sign + d) == None
  {
    SignedDigits(sign, d);
    hide ParseInt;
  }

  lemma SignedDigits(sign: seq<Byte>, d: seq<Byte>)
    requires sign == [] || sign == [MINUS] || sign == [PLUS]
    requires |d| > 0 && AllDecimalDigits(d)
    ensures var v: int := if sign == [MINUS] then 0 - DecimalValue(d) as int else DecimalValue(d);
      ParseInt(sign + d) == if INT64_MIN <= v <= INT64_MAX then Some(v) else None
  {
    var s := sign + d;
    assert IsDecimalDigit(d[0]);
    if sign == [] {
      assert s == d;
    } else {
      assert s[0] == sign[0] && s[1..] == d;
    }
  }

  /** Text that, after an optional sign, is empty or holds a byte that is not a decimal digit
      does not parse. */
  lemma ParseIntRejectsNonDigits(sign: seq<Byte>, rest: seq<Byte>)
    requires sign == [] || sign == [MINUS] || sign == [PLUS]
    requires sign == [] && |rest| > 0 ==> rest[0] != MINUS && rest[0] != PLUS
    requires |rest| == 0 || exists i :: 0 <= i < |rest| && !IsDecimalDigit(rest[i])
    ensures ParseInt(sign + rest) == None
  {
    var s := sign + rest;
    if sign == [] {
      assert s == rest;
    } else {
      assert s[0] == sign[0] && s[1..] == rest;
    }
  }

  /** The records of a payload, each the text between the space and the end of its declared
      length. A declared length beyond the end of the payload takes what remains and stops. */
  function SplitRecords(bytes: seq<Byte>): (r: Result<seq<seq<Byte>>, TarError>)
    ensures r.Err? ==> r.error in {UnknownError, Trap}
    ensures r.Ok? ==> forall i :: 0 <= i < |r.value| ==> Utf8.Valid(r.value[i])
    decreases |bytes|
  {
    if |bytes| == 0 then Ok([])
    else match FirstIndexOf(bytes, SPACE)
      case None => Err(UnknownError)
      case Some(spaceIndex) =>
        match ParseInt(bytes[..spaceIndex])
        case None => Err(UnknownError)
        case Some(length) =>
          if length < 0 then Err(Trap)               // prefix(_:) of a negative length
          else if length <= spaceIndex then Err(Trap) // suffix(from:) past the end of the prefix
          else
            var body := bytes[spaceIndex + 1 .. if length < |bytes| then length else |bytes|];
            if !Utf8.Valid(body) then Err(UnknownError)
            else if |bytes| >= length then
              match SplitRecords(bytes[length..])
              case Err(e) => Err(e)
              case Ok(rest) => Ok([body] + rest)
            else Ok([body])
  }

  /** A payload with no space left in it has no length field to read: `unknownError`. */
  lemma SplitWithoutSpace(bytes: seq<Byte>)
    requires |bytes| > 0 && FirstIndexOf(bytes, SPACE).None?
    ensures SplitRecords(bytes) == Err(UnknownError)
  {
  }

  /** Text before the first space that is not an `Int` gives `unknownError`. */
  lemma SplitBadLength(bytes: seq<Byte>, spaceIndex: nat)
    requires FirstIndexOf(bytes, SPACE) == Some(spaceIndex)
    requires ParseInt(bytes[..spaceIndex]).None?
    ensures SplitRecords(bytes) == Err(UnknownError)
  {
  }

  /** A declared length that is negative, or does not reach past the space, traps. */
  lemma SplitShortLengthTraps(bytes: seq<Byte>, spaceIndex: nat, length: int)
    requires FirstIndexOf(bytes, SPACE) == Some(spaceIndex)
    requires ParseInt(bytes[..spaceIndex]) == Some(length) && length <= spaceIndex
    ensures SplitRecords(bytes) == Err(Trap)
  {
  }

  /** A record text, the bytes after the space up to the declared length (or the end of the
      payload), that is not UTF-8 gives `unknownError`. */
  lemma SplitUndecodableBody(bytes: seq<Byte>, spaceIndex: nat, length: int)
    requires FirstIndexOf(bytes, SPACE) == Some(spaceIndex)
    requires ParseInt(bytes[..spaceIndex]) == Some(length) && length > spaceIndex
    requires !Utf8.Valid(bytes[spaceIndex + 1..if length < |bytes| then length else |bytes|])
    ensures SplitRecords(bytes) == Err(UnknownError)
  {
  }

  /** A record that fits is kept, and splitting goes on after its declared length. */
  lemma SplitWholeRecord(bytes: seq<Byte>, spaceIndex: nat, length: int)
    requires FirstIndexOf(bytes, SPACE) == Some(spaceIndex)
    requires ParseInt(bytes[..spaceIndex]) == Some(length) && spaceIndex < length <= |bytes|
    requires Utf8.Valid(bytes[spaceIndex + 1..length])
    ensures SplitRecords(bytes).Ok? <==> SplitRecords(bytes[length..]).Ok?
    ensures SplitRecords(bytes).Err? ==> SplitRecords(bytes) == SplitRecords(bytes[length..])
    ensures SplitRecords(bytes).Ok? ==>
      SplitRecords(bytes).value == [bytes[spaceIndex + 1..length]] + SplitRecords(bytes[length..]).value
  {
    hide Utf8.Valid, FirstIndexOf, ParseInt;
    var end := if length < |bytes| then length else |bytes|;
    assert end == length;
  }

  /** A last record whose declared length runs past the payload is kept, cut at the end of the
      payload, and ends the split. */
  lemma SplitTruncatedRecord(bytes: seq<Byte>, spaceIndex: nat, length: int)
    requires FirstIndexOf(bytes, SPACE) == Some(spaceIndex)
    requires ParseInt(bytes[..spaceIndex]) == Some(length) && length > |bytes|
    requires Utf8.Valid(bytes[spaceIndex + 1..])
    ensures SplitRecords(bytes) == Ok([bytes[spaceIndex + 1..]])
  {
    hide Utf8.Valid, FirstIndexOf, ParseInt;
    var end := if length < |bytes| then length else |bytes|;
    assert end == |bytes|;
    assert bytes[spaceIndex + 1..end] == bytes[spaceIndex + 1..];
  }

  /** The length of the line terminator that starts `s`, as ICU's `.` sees one: LF, VT, FF, CR,
      and the UTF-8 forms of U+0085, U+2028 and U+2029. Zero when `s` does not start with one. */
  function BreakLength(s: seq<Byte>): (n: nat)
    ensures n <= |s| && n <= 3
  {
    if |s| == 0 then 0
    else if 0x0A <= s[0] <= 0x0D then 1
    else if |s| >= 2 && s[0] == 0xC2 && s[1] == 0x85 then 2
    else if |s| >= 3 && s[0] == 0xE2 && s[1] == 0x80 && (s[2] == 0xA8 || s[2] == 0xA9) then 3
    else 0
  }

  /** The number of bytes before the first line terminator of `s`. */
  function LineLength(s: seq<Byte>): (n: nat)
    ensures n <= |s|
    ensures n < |s| ==> BreakLength(s[n..]) > 0
    ensures forall i :: 0 <= i < n ==> BreakLength(s[i..]) == 0
    decreases |s|
  {
    if |s| == 0 || BreakLength(s) > 0 then 0
    else
      var n := 1 + LineLength(s[1..]);
      assert forall i :: 1 <= i <= |s| ==> s[1..][i - 1..] == s[i..];
      n
  }

  predicate NoLineBreak(s: seq<Byte>)
  {
    LineLength(s) == |s|
  }

  /** `line` splits as key `line[..j]`, '=', value `line[j + 1..]`, both non-empty. */
  predicate IsSplit(line: seq<Byte>, j: int)
  {
    1 <= j && j + 1 < |line| && line[j] == EQUALS
  }

  function FirstSplitFrom(line: seq<Byte>, j: nat): (r: Option<nat>)
    requires j >= 1
    ensures r.Some? ==> j <= r.value && IsSplit(line, r.value)
    ensures r.Some? ==> forall i :: j <= i < r.value ==> !IsSplit(line, i)
    ensures r.None? ==> forall i :: j <= i ==> !IsSplit(line, i)
    decreases |line| - j
  {
    if j + 1 >= |line| then None
    else if line[j] == EQUALS then Some(j)
    else FirstSplitFrom(line, j + 1)
  }

  /** `(.+?)=(.+)` matched within one line: the shortest non-empty key before an '=' that a
      non-empty value follows; the value runs to the end of the line. */
  function MatchLine(line: seq<Byte>): (r: Option<(seq<Byte>, seq<Byte>)>)
    ensures r.Some? ==> line == r.value.0 + [EQUALS] + r.value.1
    ensures r.Some? ==> |r.value.0| >= 1 && |r.value.1| >= 1
    ensures r.Some? ==> forall i :: 0 <= i < |r.value.0| ==> !IsSplit(line, i)
    ensures r.None? <==> forall i :: 0 <= i < |line| ==> !IsSplit(line, i)
  {
    match FirstSplitFrom(line, 1)
    case None => None
    case Some(j) =>
      assert line == line[..j] + [EQUALS] + line[j + 1..];
      Some((line[..j], line[j + 1..]))
  }

  /** `firstMatch(in:)` of `(.+?)=(.+)`: `.` does not cross a line terminator, so the match is
      the one of the first line that has the key=value shape. */
  function FirstMatch(s: seq<Byte>): (r: Option<(seq<Byte>, seq<Byte>)>)
    ensures r.Some? ==> |r.value.0| >= 1 && |r.value.1| >= 1
    ensures r.Some? ==> NoLineBreak(r.value.0) && NoLineBreak(r.value.1)
    decreases |s|
  {
    var n := LineLength(s);
    var line := s[..n];
    match MatchLine(line)
    case Some(kv) =>
      NoBreakInLine(s, n, kv.0, [EQUALS] + kv.1);
      NoBreakInLine(s, n, kv.0 + [EQUALS], kv.1);
      Some(kv)
    case None =>
      if n == |s| then None
      else
        var next := n + BreakLength(s[n..]);
        assert next > n;
        FirstMatch(s[next..])
  }

  /** Text without a line terminator is one line, and its match is the line's. */
  lemma FirstMatchOfLine(s: seq<Byte>)
    requires NoLineBreak(s)
    ensures FirstMatch(s) == MatchLine(s)
  {
    assert s[..|s|] == s;
  }

  /** Text made of a line, a terminator and more text: the line's match when it has the
      key=value shape, otherwise the first match in what follows the terminator. So a record
      without that shape on any line is dropped. */
  lemma FirstMatchAfterBreak(line: seq<Byte>, brk: seq<Byte>, rest: seq<Byte>)
    requires NoLineBreak(line) && |brk| > 0 && BreakLength(brk + rest) == |brk|
    ensures FirstMatch(line + brk + rest) ==
      if MatchLine(line).Some? then MatchLine(line) else FirstMatch(rest)
  {
    var s := line + brk + rest;
    LineEndsAtBreak(line, brk + rest);
    assert s == line + (brk + rest);
    assert s[..|line|] == line;
    assert s[|line|..] == brk + rest;
    assert s[|line| + |brk|..] == rest;
  }

  /** The line of `line + tail` is `line` when `tail` starts with a terminator. */
  lemma LineEndsAtBreak(line: seq<Byte>, tail: seq<Byte>)
    requires NoLineBreak(line) && BreakLength(tail) > 0
    ensures LineLength(line + tail) == |line|
  {
    hide LineLength;
    var s := line + tail;
    forall i | 0 <= i < |line| ensures BreakLength(s[i..]) == 0 {
      assert s[i..] == line[i..] + tail;
      NoBreakBeforeMore(line[i..], tail);
    }
    assert s[|line|..] == tail;
  }

  /** Bytes that do not start a terminator still do not when more bytes follow them, provided
      a terminator is what follows. */
  lemma NoBreakBeforeMore(a: seq<Byte>, tail: seq<Byte>)
    requires |a| > 0 && BreakLength(a) == 0 && BreakLength(tail) > 0
    ensures BreakLength(a + tail) == 0
  {
    var t := a + tail;
    assert t[0] == a[0];
    assert |a| >= 2 ==> t[1] == a[1];
    assert |a| >= 3 ==> t[2] == a[2];
    assert |a| == 1 ==> t[1] == tail[0];
    assert |a| == 1 && |tail| >= 2 ==> t[2] == tail[1];
    assert |a| == 2 ==> t[2] == tail[0];
  }

  /** A break-free prefix stays break-free when cut into parts. */
  lemma NoBreakInLine(s: seq<Byte>, n: nat, a: seq<Byte>, b: seq<Byte>)
    requires n == LineLength(s) && s[..n] == a + b
    ensures NoLineBreak(a) && NoLineBreak(b)
  {
    assert a == s[0..|a|];
    assert b == s[|a|..n];
    NoBreakInSlice(s, 0, |a|);
    NoBreakInSlice(s, |a|, n);
  }

  /** Any slice of the text before the first terminator has no terminator. */
  lemma NoBreakInSlice(s: seq<Byte>, i: nat, j: nat)
    requires i <= j <= LineLength(s)
    ensures NoLineBreak(s[i..j])
  {
    hide LineLength;
    var t := s[i..j];
    forall k | 0 <= k < |t| ensures BreakLength(t[k..]) == 0 {
      assert t[k..] <= s[i + k..];
      BreakOfPrefix(t[k..], s[i + k..]);
    }
    AllPositionsBreakFree(t);
  }

  /** A prefix of bytes that do not start a terminator does not start one either. */
  lemma BreakOfPrefix(p: seq<Byte>, s: seq<Byte>)
    requires p <= s && BreakLength(s) == 0
    ensures BreakLength(p) == 0
  {
    assert |p| >= 1 ==> p[0] == s[0];
    assert |p| >= 2 ==> p[1] == s[1];
    assert |p| >= 3 ==> p[2] == s[2];
  }

  /** Text in which no position starts a terminator is one line. */
  lemma AllPositionsBreakFree(t: seq<Byte>)
    requires forall k :: 0 <= k < |t| ==> BreakLength(t[k..]) == 0
    ensures NoLineBreak(t)
  {
    hide LineLength;
  }

  /** The dictionary entry a record contributes, if any. */
  function ApplyRecord(overlay: Overlay, record: seq<Byte>): Overlay
  {
    match FirstMatch(record)
    case Some(kv) => overlay[kv.0 := kv.1]
    case None => overlay
  }

  /** The records folded into a dictionary in order, as `loadLongName`'s `reduce` does. */
  function Fold(records: seq<seq<Byte>>): (d: Overlay)
    ensures forall k :: k in d ==> |k| >= 1 && NoLineBreak(k) && |d[k]| >= 1 && NoLineBreak(d[k])
  {
    if |records| == 0 then map[]
    else
      var front := Fold(records[..|records| - 1]);
      ApplyRecordKeepsShape(front, records[|records| - 1]);
      ApplyRecord(front, records[|records| - 1])
  }

  /** Applying a record keeps every key and value non-empty and free of terminators. */
  lemma ApplyRecordKeepsShape(d: Overlay, record: seq<Byte>)
    requires forall k :: k in d ==> |k| >= 1 && NoLineBreak(k) && |d[k]| >= 1 && NoLineBreak(d[k])
    ensures var e := ApplyRecord(d, record);
      forall k :: k in e ==> |k| >= 1 && NoLineBreak(k) && |e[k]| >= 1 && NoLineBreak(e[k])
  {
    hide NoLineBreak;
  }

  /** Later records win: a key takes the value of the last record that sets it. */
  lemma {:induction false} FoldLastWins(records: seq<seq<Byte>>, i: nat, k: seq<Byte>, v: seq<Byte>)
    requires i < |records| && FirstMatch(records[i]) == Some((k, v))
    requires forall j :: i < j < |records| ==> FirstMatch(records[j]).None? || FirstMatch(records[j]).value.0 != k
    ensures k in Fold(records) && Fold(records)[k] == v
    decreases |records|
  {
    hide NoLineBreak;
    var n := |records|;
    var front, last := records[..n - 1], records[n - 1];
    FoldStep(records);
    hide Fold, ApplyRecord, FirstMatch;
    if i < n - 1 {
      forall j | i < j < |front|
        ensures FirstMatch(front[j]).None? || FirstMatch(front[j]).value.0 != k
      {
        assert front[j] == records[j];
      }
      assert front[i] == records[i];
      FoldLastWins(front, i, k, v);
      ApplyRecordKeeps(Fold(front), last, k);
    } else {
      ApplyRecordSets(Fold(front), last, k, v);
    }
  }

  /** A record whose first match is `k = v` binds `k` to `v`. */
  lemma ApplyRecordSets(d: Overlay, record: seq<Byte>, k: seq<Byte>, v: seq<Byte>)
    requires FirstMatch(record) == Some((k, v))
    ensures k in ApplyRecord(d, record) && ApplyRecord(d, record)[k] == v
  {
  }

  /** A record that sets no key, or another key, leaves the binding of `k` alone. */
  lemma ApplyRecordKeeps(d: Overlay, record: seq<Byte>, k: seq<Byte>)
    requires k in d
    requires FirstMatch(record).None? || FirstMatch(record).value.0 != k
    ensures k in ApplyRecord(d, record) && ApplyRecord(d, record)[k] == d[k]
  {
  }

  /** One step of the fold: the last record is applied to the fold of the others. */
  lemma FoldStep(records: seq<seq<Byte>>)
    requires |records| > 0
    ensures Fold(records) == ApplyRecord(Fold(records[..|records| - 1]), records[|records| - 1])
  {
  }

  /** A key no record sets is not in the dictionary. */
  lemma {:induction false} FoldAbsent(records: seq<seq<Byte>>, k: seq<Byte>)
    requires forall j :: 0 <= j < |records| ==> FirstMatch(records[j]).None? || FirstMatch(records[j]).value.0 != k
    ensures k !in Fold(records)
    decreases |records|
  {
    var n := |records|;
    if n > 0 {
      var front := records[..n - 1];
      assert forall j :: 0 <= j < |front| ==> front[j] == records[j];
      FoldAbsent(front, k);
    }
  }

  /** `Data.loadLongName()`. */
  function LoadLongName(payload: seq<Byte>): (r: Result<Overlay, TarError>)
    ensures r.Err? ==> r.error in {UnknownError, Trap}
    ensures r.Ok? ==> forall k :: k in r.value ==>
      |k| >= 1 && NoLineBreak(k) && |r.value[k]| >= 1 && NoLineBreak(r.value[k])
  {
    var records :- SplitRecords(payload);
    Ok(Fold(records))
  }

  /** `traceLongName(data:offset:length:)`, the same decoder over a window of a larger buffer.
      A negative length traps forming the range; the window is read through a raw pointer. */
  function TraceLongName(data: seq<Byte>, offset: nat, length: int): (r: Result<Overlay, TarError>)
    requires length >= 0 ==> offset + length <= |data|
    ensures length < 0 ==> r == Err(Trap)
    ensures length >= 0 ==> r == LoadLongName(data[offset..offset + length])
  {
    if length < 0 then Err(Trap)
    else
      var window := seq(length, i requires 0 <= i < length => data[offset + i]);
      assert window == data[offset..offset + length];
      LoadLongName(window)
  }
}
