/** Decoding of the fixed-offset fields of a 512-byte record: raw byte runs, NUL-terminated text,
    and the octal numbers the header parses with `strtoul(text, nil, 8)`. */
module Fields {
  import opened Wrappers
  import opened Bytes
  import opened Errors
  import Utf8

  const UINT64_MODULUS: nat := 0x1_0000_0000_0000_0000
  const INT64_MAX: nat := 0x7FFF_FFFF_FFFF_FFFF

  /** The `length` bytes at `start` (`bytesToUInt8Array` reads them through a raw pointer, so the run
      must lie inside the buffer). */
  function BytesToUInt8Array(block: seq<Byte>, start: nat, length: nat): (r: seq<Byte>)
    requires start + length <= |block|
    ensures |r| == length
    ensures forall i :: 0 <= i < length ==> r[i] == block[start + i]
  {
    block[start..start + length]
  }

  /** The text of a field: its bytes before the first NUL (all of them when there is none),
      provided they are well-formed UTF-8. */
  function StringExtract(block: seq<Byte>, start: nat, length: nat): (r: Result<seq<Byte>, TarError>)
    requires start + length <= |block|
    ensures r.Ok? <==> Utf8.Valid(UpToNul(block[start..start + length]))
    ensures r.Err? ==> r.error == DecodeStringError
    ensures r.Ok? ==> r.value <= block[start..start + length] && NUL !in r.value
    ensures r.Ok? && |r.value| < length ==> block[start + |r.value|] == NUL
  {
    var text := UpToNul(BytesToUInt8Array(block, start, length));
    if Utf8.Valid(text) then Ok(text) else Err(DecodeStringError)
  }

  /** A field holding `text` followed by NUL fill reads back as `text`. */
  lemma StringExtractOfPaddedText(block: seq<Byte>, start: nat, length: nat, text: seq<Byte>)
    requires start + length <= |block|
    requires Utf8.Valid(text) && NUL !in text && |text| <= length
    requires block[start..start + |text|] == text
    requires |text| < length ==> block[start + |text|] == NUL
    ensures StringExtract(block, start, length) == Ok(text)
  {
    var field := block[start..start + length];
    assert field[..|text|] == text;
    UpToNulOfTerminated(field, |text|);
  }

  /** C `isspace` in the "C" locale: space, tab, line feed, vertical tab, form feed, return. */
  predicate IsCSpace(b: Byte)
  {
    b == 32 || 9 <= b <= 13
  }

  predicate IsOctalDigit(b: Byte)
  {
    '0' as int <= b <= '7' as int
  }

  predicate AllOctalDigits(s: seq<Byte>)
  {
    forall i :: 0 <= i < |s| ==> IsOctalDigit(s[i])
  }

  /** The number an all-octal-digit string denotes, most significant digit first. */
  function OctalValue(digits: seq<Byte>): nat
    requires AllOctalDigits(digits)
  {
    if |digits| == 0 then 0
    else OctalValue(digits[..|digits| - 1]) * 8 + (digits[|digits| - 1] - '0' as int)
  }

  function Pow8(n: nat): nat
  {
    if n == 0 then 1 else 8 * Pow8(n - 1)
  }

  /** `Int(strtoul(text, nil, 8))`: skip C white space, then convert what follows. */
  function StrToUL8(text: seq<Byte>): (r: Result<nat, TarError>)
    ensures r.Ok? ==> r.value <= INT64_MAX
    ensures r.Err? ==> r.error == Trap
  {
    ConvertSigned(text[|TakeWhile(text, IsCSpace)|..])
  }

  /** The conversion after the white space: one optional sign, then the longest run of octal
      digits (none reads as 0). A value that overflows 64 bits saturates to `ULONG_MAX`; a minus
      sign negates modulo 2^64. `Int(_:)` of an unsigned value above `Int.max` traps. */
  function ConvertSigned(t: seq<Byte>): (r: Result<nat, TarError>)
    ensures r.Ok? ==> r.value <= INT64_MAX
    ensures r.Err? ==> r.error == Trap
  {
    var negative := |t| > 0 && t[0] == MINUS;
    var unsigned := if |t| > 0 && (t[0] == MINUS || t[0] == PLUS) then t[1..] else t;
    var magnitude := OctalValue(TakeWhile(unsigned, IsOctalDigit));
    var converted: nat :=
      if magnitude >= UINT64_MODULUS then UINT64_MODULUS - 1
      else if negative && magnitude > 0 then UINT64_MODULUS - magnitude
      else magnitude;
    if converted > INT64_MAX then Err(Trap) else Ok(converted)
  }

  /** Leading white space is skipped up to the first byte that is not white space. */
  lemma SkipBlanks(blanks: seq<Byte>, after: seq<Byte>)
    requires forall i :: 0 <= i < |blanks| ==> IsCSpace(blanks[i])
    requires |after| > 0 ==> !IsCSpace(after[0])
    ensures StrToUL8(blanks + after) == ConvertSigned(after)
  {
    TakeWhileStopsAt(blanks, after, IsCSpace);
    assert (blanks + after)[|blanks|..] == after;
  }

  /** `n` written as exactly `width` octal digits, with leading zeros (the ustar number layout). */
  function OctalDigits(n: nat, width: nat): (r: seq<Byte>)
    ensures |r| == width && AllOctalDigits(r)
  {
    if width == 0 then [] else OctalDigits(n / 8, width - 1) + [('0' as int + n % 8) as Byte]
  }

  lemma {:induction false} OctalValueOfDigits(n: nat, width: nat)
    requires n < Pow8(width)
    ensures OctalValue(OctalDigits(n, width)) == n
  {
    if width > 0 {
      var d := OctalDigits(n, width);
      assert d[..width - 1] == OctalDigits(n / 8, width - 1);
      assert n / 8 < Pow8(width - 1);
      OctalValueOfDigits(n / 8, width - 1);
    }
  }

  lemma {:induction false} TakeWhileStopsAt(s: seq<Byte>, tail: seq<Byte>, p: Byte -> bool)
    requires forall i :: 0 <= i < |s| ==> p(s[i])
    requires |tail| > 0 ==> !p(tail[0])
    ensures TakeWhile(s + tail, p) == s
    decreases |s|
  {
    if |s| == 0 {
      assert s + tail == tail;
    } else {
      assert (s + tail)[1..] == s[1..] + tail;
      TakeWhileStopsAt(s[1..], tail, p);
    }
  }

  /** A field written as leading blanks, `width` octal digits of `n` and a terminator that is not
      an octal digit (the ustar convention is NUL or space) reads back as `n`. */
  lemma {:induction false} StrToUL8OfOctalField(blanks: seq<Byte>, n: nat, width: nat, tail: seq<Byte>)
    requires forall i :: 0 <= i < |blanks| ==> IsCSpace(blanks[i])
    requires width > 0 && n < Pow8(width) && n <= INT64_MAX
    requires |tail| > 0 ==> !IsOctalDigit(tail[0])
    ensures StrToUL8(blanks + OctalDigits(n, width) + tail) == Ok(n)
  {
    var digits := OctalDigits(n, width);
    var after := digits + tail;
    assert blanks + digits + tail == blanks + after;
    assert after[0] == digits[0] && IsOctalDigit(after[0]);
    SkipBlanks(blanks, after);
    OctalValueOfDigits(n, width);
    ConvertDigits(digits, tail);
  }

  /** Unsigned octal digits up to `Int.max` convert to their value. */
  lemma ConvertDigits(digits: seq<Byte>, tail: seq<Byte>)
    requires |digits| > 0 && AllOctalDigits(digits) && OctalValue(digits) <= INT64_MAX
    requires |tail| > 0 ==> !IsOctalDigit(tail[0])
    ensures ConvertSigned(digits + tail) == Ok(OctalValue(digits))
  {
    assert (digits + tail)[0] == digits[0];
    TakeWhileStopsAt(digits, tail, IsOctalDigit);
  }

  const MINUS: Byte := 45
  const PLUS: Byte := 43

  /** No octal digit after the blanks and the optional sign reads as 0: an empty field, as an
      all-NUL size field decodes to, converts to 0. */
  lemma StrToUL8OfNoDigits(blanks: seq<Byte>, sign: seq<Byte>, rest: seq<Byte>)
    requires forall i :: 0 <= i < |blanks| ==> IsCSpace(blanks[i])
    requires sign == [] || sign == [MINUS] || sign == [PLUS]
    requires |rest| > 0 ==> !IsOctalDigit(rest[0])
    requires sign == [] && |rest| > 0 ==> !IsCSpace(rest[0]) && rest[0] != MINUS && rest[0] != PLUS
    ensures StrToUL8(blanks + sign + rest) == Ok(0)
  {
    var after := sign + rest;
    assert blanks + sign + rest == blanks + after;
    assert |after| > 0 ==> !IsCSpace(after[0]);
    SkipBlanks(blanks, after);
    ConvertNoDigits(sign, rest);
  }

  lemma ConvertNoDigits(sign: seq<Byte>, rest: seq<Byte>)
    requires sign == [] || sign == [MINUS] || sign == [PLUS]
    requires |rest| > 0 ==> !IsOctalDigit(rest[0])
    requires sign == [] && |rest| > 0 ==> rest[0] != MINUS && rest[0] != PLUS
    ensures ConvertSigned(sign + rest) == Ok(0)
  {
    var t := sign + rest;
    assert |t| > 0 && (t[0] == MINUS || t[0] == PLUS) ==> t[1..] == rest;
    assert [] + rest == rest;
    TakeWhileStopsAt([], rest, IsOctalDigit);
  }

  /** A minus sign before digits of value `m` negates modulo 2^64, as `strtoul` does: the
      result exceeds `Int.max`, and `Int(_:)` traps, unless `m` is 0 or above 2^63. A value that
      does not fit in 64 bits saturates to `ULONG_MAX` and traps too. */
  lemma StrToUL8OfNegative(blanks: seq<Byte>, digits: seq<Byte>, tail: seq<Byte>)
    requires forall i :: 0 <= i < |blanks| ==> IsCSpace(blanks[i])
    requires AllOctalDigits(digits)
    requires |tail| > 0 ==> !IsOctalDigit(tail[0])
    ensures OctalValue(digits) == 0 ==> StrToUL8(blanks + [MINUS] + digits + tail) == Ok(0)
    ensures 0 < OctalValue(digits) <= INT64_MAX + 1 ==> StrToUL8(blanks + [MINUS] + digits + tail) == Err(Trap)
    ensures INT64_MAX + 1 < OctalValue(digits) < UINT64_MODULUS ==>
      StrToUL8(blanks + [MINUS] + digits + tail) == Ok(UINT64_MODULUS - OctalValue(digits))
    ensures OctalValue(digits) >= UINT64_MODULUS ==> StrToUL8(blanks + [MINUS] + digits + tail) == Err(Trap)
  {
    var after := [MINUS] + (digits + tail);
    assert blanks + [MINUS] + digits + tail == blanks + after;
    SkipBlanks(blanks, after);
    hide StrToUL8;
    assert after[1..] == digits + tail;
    TakeWhileStopsAt(digits, tail, IsOctalDigit);
  }
}
