/**
 * Zone serial numbers in the YYYYMMDDnn convention of section 2.2 of
 * RFC 1912: a new serial is the previous one plus one, or the date seed
 * YYYYMMDD00 when that is larger; a stored serial is read back as the
 * trimmed decimal text, or 0 when the text is not a number.
 */
module Serial {
  import opened Common
  import opened Text

  /** The date seed YYYYMMDD00 for a calendar date the clock can report. */
  function DateSeed(year: nat, month: nat, day: nat): (r: nat)
    requires year <= 4294 && 1 <= month <= 12 && 1 <= day <= 31
    ensures r <= MaxU32 && r % 100 == 0
  {
    year * 1_000_000 + month * 10_000 + day * 100
  }

  /**
   * `calc_serial` with the date passed in: the larger of the previous serial plus
   * one and today's seed. The addition is 32-bit; at the largest serial it
   * wraps to 0.
   */
  function CalcSerial(prev: U32, year: nat, month: nat, day: nat): (r: U32)
    requires year <= 4294 && 1 <= month <= 12 && 1 <= day <= 31
    ensures r >= DateSeed(year, month, day)
    ensures prev < MaxU32 ==> r > prev
    ensures r == (prev + 1) % 0x1_0000_0000 || r == DateSeed(year, month, day)
    ensures prev < DateSeed(year, month, day) ==> r == DateSeed(year, month, day)
    ensures DateSeed(year, month, day) <= prev < MaxU32 ==> r == prev + 1
  {
    var next := (prev + 1) % 0x1_0000_0000;
    var seed := DateSeed(year, month, day);
    if next >= seed then next else seed
  }

  /** The first serial ever (no stored one) is today's seed, ending in "00". */
  lemma {:induction false} FirstSerialIsSeed(year: nat, month: nat, day: nat)
    requires year <= 4294 && 1 <= month <= 12 && 1 <= day <= 31
    ensures CalcSerial(0, year, month, day) == DateSeed(year, month, day)
    ensures CalcSerial(0, year, month, day) % 100 == 0
  {
  }

  /** On one day, repeated generations count up by one from the stored serial: seed+5, seed+6, seed+7. */
  lemma {:induction false} SameDayCountsUp(year: nat, month: nat, day: nat, prev: U32)
    requires year <= 4294 && 1 <= month <= 12 && 1 <= day <= 31
    requires DateSeed(year, month, day) <= prev && prev + 2 <= MaxU32
    ensures CalcSerial(prev, year, month, day) == prev + 1
    ensures CalcSerial(CalcSerial(prev, year, month, day), year, month, day) == prev + 2
  {
  }

  /** The largest serial wraps: the next one is today's seed, below the previous one. */
  lemma {:induction false} LargestSerialWraps(year: nat, month: nat, day: nat)
    requires year <= 4294 && 1 <= month <= 12 && 1 <= day <= 31
    ensures CalcSerial(MaxU32, year, month, day) == DateSeed(year, month, day) < MaxU32
  {
  }

  /** The stored-serial rule of `load_serial`: the trimmed text as a decimal `u32`, else 0. */
  function LoadSerialText(text: string): (r: U32)
    ensures ParseU32(Trim(text)).Some? ==> r == ParseU32(Trim(text)).value
    ensures ParseU32(Trim(text)).None? ==> r == 0
  {
    match ParseU32(Trim(text))
    case Some(n) => n
    case None => 0
  }

  /** `save_serial` writes the decimal text of the serial. */
  function SaveSerialText(serial: U32): (r: string)
    ensures |r| >= 1 && forall i :: 0 <= i < |r| ==> IsAsciiDigit(r[i])
  {
    DecimalString(serial)
  }

  /** What is saved loads back, also with whitespace around it (a line end, indentation). */
  lemma {:induction false} SaveLoadRoundTrip(serial: U32, pre: string, post: string)
    requires forall i :: 0 <= i < |pre| ==> IsWhitespace(pre[i])
    requires forall i :: 0 <= i < |post| ==> IsWhitespace(post[i])
    ensures LoadSerialText(pre + SaveSerialText(serial) + post) == serial
  {
    var s := SaveSerialText(serial);
    TrimPadded(pre, s, post);
    ParseDecimalString(serial);
  }

  /** Text that is not a number loads as 0. */
  lemma {:induction false} NonNumberLoadsZero(text: string)
    requires exists i :: 0 <= i < |Trim(text)| && !IsAsciiDigit(Trim(text)[i]) && (i > 0 || Trim(text)[i] != '+')
    ensures LoadSerialText(text) == 0
  {
    var t := Trim(text);
    var i :| 0 <= i < |t| && !IsAsciiDigit(t[i]) && (i > 0 || t[i] != '+');
    if StartsWith(t, '+') {
      assert t[1..][i - 1] == t[i];
      assert !IsDigits(t[1..]);
    } else {
      assert !IsDigits(t);
    }
  }
}
