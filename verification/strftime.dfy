/** The two `DateTime#strftime` formats of the protocol: `%Y%m%d` (the
    credential scope) and `%Y%m%dT%H%M%SZ` (the long date). */
module Strftime {
  import opened ByteStrings

  /** A Ruby `DateTime`: its civil fields as it holds them, and its offset from
      UTC in seconds. `strftime` prints the civil fields as they are; the
      offset does not enter either format. */
  datatype DateTime = DateTime(year: int, month: int, day: int, hour: int, minute: int, second: int, offset: int)
  {
    predicate Valid() {
      1 <= month <= 12 && 1 <= day <= 31 && 0 <= hour < 24 && 0 <= minute < 60 && 0 <= second < 60
    }

    /** The calendar day: what `%Y%m%d` prints. */
    function Day(): (int, int, int) {
      (year, month, day)
    }
  }

  type Timestamp = t: DateTime | t.Valid() witness DateTime(1970, 1, 1, 0, 0, 0, 0)

  /** `%Y`: the year padded with zeros to at least four digits, after a `-`
      for a year before 0. */
  function Year(y: int): Bytes {
    if y < 0 then "-" + PadLeft(NatToDecimal(-y), 4) else PadLeft(NatToDecimal(y), 4)
  }

  /** A year from 0 to 9999 prints as exactly four digits. */
  lemma FourDigitYear(y: int)
    requires 0 <= y <= 9999
    ensures |Year(y)| == 4 && AllDigits(Year(y))
  {
    DecimalLength(y, 4);
    PaddedValue(NatToDecimal(y), 4);
  }

  /** `%m`, `%d`, `%H`, `%M`, `%S`: two digits, zero-padded. */
  function TwoDigits(n: nat): (r: Bytes)
    requires n < 100
    ensures |r| == 2 && AllDigits(r)
  {
    DecimalLength(n, 2);
    PaddedValue(NatToDecimal(n), 2);
    PadLeft(NatToDecimal(n), 2)
  }

  /** `strftime("%Y%m%d")`. */
  function ShortDate(t: Timestamp): Bytes {
    Year(t.year) + TwoDigits(t.month) + TwoDigits(t.day)
  }

  /** `strftime("%Y%m%dT%H%M%SZ")`. */
  function LongDate(t: Timestamp): Bytes {
    var date: Bytes := Year(t.year) + TwoDigits(t.month) + TwoDigits(t.day);
    var time: Bytes := TwoDigits(t.hour) + TwoDigits(t.minute) + TwoDigits(t.second);
    var tee: Bytes := "T";
    var zed: Bytes := "Z";
    date + tee + time + zed
  }

  predicate InFourDigitYears(t: Timestamp) {
    0 <= t.year <= 9999
  }

  /** The short date is eight digits; the long date is sixteen bytes, has `T`
      at index 8, ends in `Z`, and begins with the short date. */
  lemma DateShapes(t: Timestamp)
    requires InFourDigitYears(t)
    ensures |ShortDate(t)| == 8 && AllDigits(ShortDate(t))
    ensures |LongDate(t)| == 16 && LongDate(t)[8] == 'T' && LongDate(t)[15] == 'Z'
    ensures LongDate(t)[..8] == ShortDate(t)
  {
    FourDigitYear(t.year);
    var s := ShortDate(t);
    var time: Bytes := TwoDigits(t.hour) + TwoDigits(t.minute) + TwoDigits(t.second);
    assert LongDate(t) == s + ("T" + time + "Z");
  }

  lemma TwoDigitsInjective(m: nat, n: nat)
    requires m < 100 && n < 100
    ensures TwoDigits(m) == TwoDigits(n) <==> m == n
  {
    PaddedDecimalInjective(m, n, 2);
  }

  /** Within four-digit years, the short date names the calendar day
      exactly: two timestamps share it if and only if they fall on the same
      day. */
  lemma ShortDateNamesDay(a: Timestamp, b: Timestamp)
    requires InFourDigitYears(a) && InFourDigitYears(b)
    ensures ShortDate(a) == ShortDate(b) <==> a.Day() == b.Day()
  {
    FourDigitYear(a.year);
    FourDigitYear(b.year);
    var sa, sb := ShortDate(a), ShortDate(b);
    if sa == sb {
      assert sa[..4] == Year(a.year) && sb[..4] == Year(b.year);
      assert sa[4..6] == TwoDigits(a.month) && sb[4..6] == TwoDigits(b.month);
      assert sa[6..] == TwoDigits(a.day) && sb[6..] == TwoDigits(b.day);
      PaddedDecimalInjective(a.year, b.year, 4);
      TwoDigitsInjective(a.month, b.month);
      TwoDigitsInjective(a.day, b.day);
    }
  }

  predicate IsDateByte(c: Byte) {
    IsDigit(c) || c == '-' || c == 'T' || c == 'Z'
  }

  lemma YearBytes(y: int)
    ensures Every(Year(y), IsDateByte)
  {
    var n := if y < 0 then -y else y;
    PaddedValue(NatToDecimal(n), 4);
    var digits := PadLeft(NatToDecimal(n), 4);
    if y < 0 {
      var minus: Bytes := "-";
      EveryAppend(minus, digits, IsDateByte);
    }
  }

  /** The long date holds only digits, `-` (of a year before 0), `T` and
      `Z`. */
  lemma LongDateBytes(t: Timestamp)
    ensures Every(LongDate(t), IsDateByte)
  {
    YearBytes(t.year);
    var date: Bytes := Year(t.year) + TwoDigits(t.month) + TwoDigits(t.day);
    var time: Bytes := TwoDigits(t.hour) + TwoDigits(t.minute) + TwoDigits(t.second);
    var tee: Bytes := "T";
    var zed: Bytes := "Z";
    EveryAppend(Year(t.year), TwoDigits(t.month), IsDateByte);
    EveryAppend(Year(t.year) + TwoDigits(t.month), TwoDigits(t.day), IsDateByte);
    EveryAppend(TwoDigits(t.hour), TwoDigits(t.minute), IsDateByte);
    EveryAppend(TwoDigits(t.hour) + TwoDigits(t.minute), TwoDigits(t.second), IsDateByte);
    EveryAppend(date, tee, IsDateByte);
    EveryAppend(date + tee, time, IsDateByte);
    EveryAppend(date + tee + time, zed, IsDateByte);
  }
}
