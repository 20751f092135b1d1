/** DS3231 real-time-clock library: the BCD codec, the Gregorian calendar checks, the
    EFI_TIME range validation done by LibSetTime and the register decoding done by
    LibGetTime. I2C traffic and the variable store are outside the model: the registers
    LibSetTime writes are returned as a list of writes, and the values LibGetTime reads
    (registers, stored time zone, stored daylight flags) are parameters. */
module Ds3231Rtc {
  import opened Wrappers

  /** One byte as carried over I2C to or from a DS3231 register. */
  type Byte = x: int | 0 <= x < 256

  // DS3231 time-keeping register addresses.
  const SecRegAddr: Byte := 0x00
  const MinRegAddr: Byte := 0x01
  const HourRegAddr: Byte := 0x02
  const DateRegAddr: Byte := 0x04
  const MonthRegAddr: Byte := 0x05
  const YearRegAddr: Byte := 0x06

  /** EFI_UNSPECIFIED_TIMEZONE */
  const UnspecifiedTimeZone: int := 2047
  /** EFI_TIME_ADJUST_DAYLIGHT and EFI_TIME_IN_DAYLIGHT */
  const AdjustDaylight: nat := 0x01
  const InDaylight: nat := 0x02

  /** The EFI_TIME fields the driver reads or writes (the pad bytes are omitted). */
  datatype EfiTime = EfiTime(
    year: nat, month: nat, day: nat,
    hour: nat, minute: nat, second: nat,
    nanosecond: nat, timeZone: int, daylight: nat)

  /** The six DS3231 registers that hold the date and time. */
  datatype RtcRegisters = RtcRegisters(
    second: Byte, minute: Byte, hour: Byte, date: Byte, month: Byte, year: Byte)

  /** One I2C register write issued through RtcWrite. */
  datatype RegWrite = RegWrite(addr: Byte, value: Byte)

  // ---------------------------------------------------------------------------
  // BCD conversion macros

  /** The Bin macro: `(b & 0x0f) + (b >> 4) * 10`. On a byte, `& 0x0f` is `% 16` and
      `>> 4` is `/ 16`. */
  function Bin(b: Byte): nat
  {
    b % 16 + (b / 16) * 10
  }

  /** The Bcd macro: `((n / 10) << 4) | (n % 10)`, narrowed to the UINT8 that RtcWrite
      takes. The operands of `|` occupy disjoint bits (`n % 10 < 16`), so the OR is their
      sum. */
  function Bcd(n: nat): Byte
  {
    ((n / 10) * 16 + n % 10) % 256
  }

  /** A byte whose two nibbles are decimal digits. */
  predicate IsBcd(b: Byte)
  {
    b % 16 <= 9 && b / 16 <= 9
  }

  /** Encoding a two-digit number gives a well-formed BCD byte that decodes back to it. */
  lemma {:induction false} BinBcdRoundTrip(n: nat)
    requires n <= 99
    ensures IsBcd(Bcd(n)) && Bin(Bcd(n)) == n
  {
    var tens, units := n / 10, n % 10;
    assert n == tens * 10 + units;
    assert tens * 16 + units < 256;
    assert Bcd(n) == tens * 16 + units;
  }

  /** The other direction: a well-formed BCD byte is re-encoded to itself. */
  lemma {:induction false} BcdBinRoundTrip(b: Byte)
    requires IsBcd(b)
    ensures Bin(b) <= 99 && Bcd(Bin(b)) == b
  {
    var hi, lo := b / 16, b % 16;
    assert b == hi * 16 + lo;
    assert Bin(b) == hi * 10 + lo;
    assert Bin(b) / 10 == hi && Bin(b) % 10 == lo;
  }

  // ---------------------------------------------------------------------------
  // Calendar checks

  /** A multiple of 400 is a multiple of 100 and of 4. */
  lemma {:induction false} MultipleOf400(year: nat)
    ensures year % 400 == 0 ==> year % 100 == 0 && year % 4 == 0
  {
    var k := year / 400;
    var h := year / 100;
    assert year == 400 * k + year % 400;
    assert year == 100 * h + year % 100;
    if year % 400 == 0 {
      assert 100 * (h - 4 * k) == - (year % 100);
      assert h == 4 * k;
      assert year == 4 * (100 * k);
    }
  }

  /** IsLeapYear, written as the source's nested tests. */
  function IsLeapYear(year: nat): (r: bool)
    ensures r <==> (year % 4 == 0 && year % 100 != 0) || year % 400 == 0
  {
    MultipleOf400(year);
    if year % 4 == 0 then
      if year % 100 == 0 then
        year % 400 == 0
      else
        true
    else
      false
  }

  /** Independent reference: the number of days in a month of the Gregorian calendar. */
  function DaysInMonth(month: nat, year: nat): nat
    requires 1 <= month <= 12
  {
    if month == 2 then (if IsLeapYear(year) then 29 else 28)
    else if month == 4 || month == 6 || month == 9 || month == 11 then 30
    else 31
  }

  /** The DayOfMonth table of DayValid. */
  const DayOfMonth: seq<nat> := [31, 29, 31, 30, 31, 30, 31, 31, 30, 31, 30, 31]

  /** DayValid. It indexes DayOfMonth[Month - 1], so its callers must have checked the
      month first (LibSetTime does, by the order of its `||` chain). */
  function DayValid(t: EfiTime): (r: bool)
    requires 1 <= t.month <= 12
    ensures r <==> 1 <= t.day <= DaysInMonth(t.month, t.year)
  {
    !(t.day < 1
      || t.day > DayOfMonth[t.month - 1]
      || (t.month == 2 && (!IsLeapYear(t.year) && t.day > 28)))
  }

  // ---------------------------------------------------------------------------
  // LibSetTime

  /** The parameter check of LibSetTime, in the source's order; the month is tested before
      DayValid is consulted. `Daylight & ~(ADJUST_DAYLIGHT | IN_DAYLIGHT)` is non-zero
      exactly when the value has a bit above the low two, that is when it is 4 or more. */
  function TimeValid(t: EfiTime): (r: bool)
    ensures r <==>
      && 1900 <= t.year <= 9999
      && 1 <= t.month <= 12
      && 1 <= t.day <= DaysInMonth(t.month, t.year)
      && t.hour <= 23 && t.minute <= 59 && t.second <= 59
      && t.nanosecond <= 999999999
      && (t.timeZone == UnspecifiedTimeZone || -1440 <= t.timeZone <= 1440)
      && t.daylight in {0, AdjustDaylight, InDaylight, AdjustDaylight + InDaylight}
  {
    !(t.year < 1900
      || t.year > 9999
      || t.month < 1
      || t.month > 12
      || !DayValid(t)
      || t.hour > 23
      || t.minute > 59
      || t.second > 59
      || t.nanosecond > 999999999
      || !(t.timeZone == UnspecifiedTimeZone || (t.timeZone >= -1440 && t.timeZone <= 1440))
      || t.daylight / 4 != 0)
  }

  /** What LibSetTime does to the clock: nothing when a field is out of range, otherwise
      the six register writes, in the source's order. */
  datatype SetTimeOutcome = InvalidParameter | Written(writes: seq<RegWrite>)

  function LibSetTimeWrites(t: EfiTime): (r: SetTimeOutcome)
    ensures r.InvalidParameter? <==> !TimeValid(t)
    ensures r.Written? ==>
      && |r.writes| == 6
      && r.writes[0].addr == YearRegAddr && Bin(r.writes[0].value) == t.year % 100
      && r.writes[1].addr == MonthRegAddr && Bin(r.writes[1].value) == t.month
      && r.writes[2].addr == DateRegAddr && Bin(r.writes[2].value) == t.day
      && r.writes[3].addr == HourRegAddr && Bin(r.writes[3].value) == t.hour
      && r.writes[4].addr == MinRegAddr && Bin(r.writes[4].value) == t.minute
      && r.writes[5].addr == SecRegAddr && Bin(r.writes[5].value) == t.second
      && forall w <- r.writes :: IsBcd(w.value)
  {
    if !TimeValid(t) then
      InvalidParameter
    else
      BinBcdRoundTrip(t.year % 100);
      BinBcdRoundTrip(t.month);
      BinBcdRoundTrip(t.day);
      BinBcdRoundTrip(t.hour);
      BinBcdRoundTrip(t.minute);
      BinBcdRoundTrip(t.second);
      Written([
        RegWrite(YearRegAddr, Bcd(t.year % 100)),
        RegWrite(MonthRegAddr, Bcd(t.month)),
        RegWrite(DateRegAddr, Bcd(t.day)),
        RegWrite(HourRegAddr, Bcd(t.hour)),
        RegWrite(MinRegAddr, Bcd(t.minute)),
        RegWrite(SecRegAddr, Bcd(t.second))])
  }

  /** The clock's time registers after a sequence of writes; writes to other addresses
      leave them alone. */
  function ApplyWrites(regs: RtcRegisters, writes: seq<RegWrite>): RtcRegisters
    decreases |writes|
  {
    if writes == [] then regs
    else
      var w := writes[0];
      var next :=
        if w.addr == SecRegAddr then regs.(second := w.value)
        else if w.addr == MinRegAddr then regs.(minute := w.value)
        else if w.addr == HourRegAddr then regs.(hour := w.value)
        else if w.addr == DateRegAddr then regs.(date := w.value)
        else if w.addr == MonthRegAddr then regs.(month := w.value)
        else if w.addr == YearRegAddr then regs.(year := w.value)
        else regs;
      ApplyWrites(next, writes[1..])
  }

  // ---------------------------------------------------------------------------
  // LibGetTime

  /** The two-digit year of the year register, placed in the 1998..2097 window. */
  function DecodeYear(y: Byte): (r: nat)
    ensures IsBcd(y) ==> 1998 <= r <= 2097 && r % 100 == Bin(y)
  {
    Bin(y) + (if Bin(y) >= 98 then 1900 else 2000)
  }

  /** A stored time zone outside -1440..1440 that is not EFI_UNSPECIFIED_TIMEZONE is
      replaced by EFI_UNSPECIFIED_TIMEZONE; a valid one is kept. */
  function ClampTimeZone(tz: int): (r: int)
    ensures (tz == UnspecifiedTimeZone || -1440 <= tz <= 1440) ==> r == tz
    ensures !(tz == UnspecifiedTimeZone || -1440 <= tz <= 1440) ==> r == UnspecifiedTimeZone
  {
    if (tz < -1440 || tz > 1440) && tz != UnspecifiedTimeZone then UnspecifiedTimeZone else tz
  }

  /** The EFI_TIME that LibGetTime fills in from the registers it read and from the stored
      time-zone and daylight variables (None: the variable does not exist yet, in which
      case the defaults EFI_UNSPECIFIED_TIMEZONE and 0 are used). Second and Minute are
      masked with 0x7F, Hour and Date with 0x3F, Month with 0x1F before decoding. */
  function LibGetTimeFields(regs: RtcRegisters, storedTimeZone: Option<int>,
                            storedDaylight: Option<Byte>): (t: EfiTime)
    ensures t.nanosecond == 0
    ensures t.second <= Bin(127) && t.minute <= Bin(127)
    ensures t.hour <= Bin(63) && t.day <= Bin(63) && t.month <= Bin(31)
    ensures t.timeZone == UnspecifiedTimeZone || -1440 <= t.timeZone <= 1440
    ensures storedTimeZone.None? ==> t.timeZone == UnspecifiedTimeZone
    ensures storedDaylight.None? ==> t.daylight == 0
    ensures IsBcd(regs.year) ==> 1998 <= t.year <= 2097
  {
    EfiTime(
      year := DecodeYear(regs.year),
      month := Bin(regs.month % 32),
      day := Bin(regs.date % 64),
      hour := Bin(regs.hour % 64),
      minute := Bin(regs.minute % 128),
      second := Bin(regs.second % 128),
      nanosecond := 0,
      timeZone := match storedTimeZone
        case None => UnspecifiedTimeZone
        case Some(tz) => ClampTimeZone(tz),
      daylight := match storedDaylight
        case None => 0
        case Some(d) => d)
  }

  /** A two-digit number below 10 * k encodes to a BCD byte below 16 * k. */
  lemma {:induction false} BcdBelow(n: nat, k: nat)
    requires n < 10 * k && k <= 10
    ensures Bcd(n) < 16 * k
  {
    var tens, units := n / 10, n % 10;
    assert n == tens * 10 + units;
    assert tens < k;
    assert tens * 16 + units < 256;
    assert Bcd(n) == tens * 16 + units;
  }

  /** Masking with the register's field width (0x1F, 0x3F or 0x7F) does not disturb the
      BCD form of a number the field can hold. */
  lemma {:induction false} MaskKeepsSmallBcd(n: nat, width: nat)
    requires width in {32, 64, 128} && n < 10 * (width / 16)
    ensures Bin(Bcd(n) % width) == n
  {
    BinBcdRoundTrip(n);
    BcdBelow(n, width / 16);
    SmallModIsIdentity(Bcd(n), width);
  }

  lemma {:induction false} SmallModIsIdentity(b: nat, width: nat)
    requires width in {32, 64, 128} && b < width
    ensures b % width == b
  {
    if width == 32 {
      assert b % 32 == b;
    } else if width == 64 {
      assert b % 64 == b;
    } else {
      assert b % 128 == b;
    }
  }

  /** A year survives a LibSetTime / LibGetTime round trip exactly when it lies in the
      1998..2097 window (LibSetTime only warns about the others). */
  lemma {:induction false} YearRoundTripWindow(year: nat)
    requires 1900 <= year <= 9999
    ensures DecodeYear(Bcd(year % 100)) == year <==> 1998 <= year <= 2097
  {
    var m, q := year % 100, year / 100;
    BinBcdRoundTrip(m);
    assert year == 100 * q + m;
    assert DecodeYear(Bcd(m)) == m + (if m >= 98 then 1900 else 2000);
    if m >= 98 {
      assert DecodeYear(Bcd(m)) == year <==> q == 19;
    } else {
      assert DecodeYear(Bcd(m)) == year <==> q == 20;
    }
  }

  /** LibSetTime's six writes, in its order, leave each time register holding the value
      written to it. */
  lemma {:induction false} ApplyTimeWrites(before: RtcRegisters, y: Byte, mo: Byte, d: Byte,
                                           h: Byte, mi: Byte, sec: Byte)
    ensures ApplyWrites(before, [RegWrite(YearRegAddr, y), RegWrite(MonthRegAddr, mo),
                                 RegWrite(DateRegAddr, d), RegWrite(HourRegAddr, h),
                                 RegWrite(MinRegAddr, mi), RegWrite(SecRegAddr, sec)])
            == RtcRegisters(sec, mi, h, d, mo, y)
  {
    var w := [RegWrite(YearRegAddr, y), RegWrite(MonthRegAddr, mo), RegWrite(DateRegAddr, d),
              RegWrite(HourRegAddr, h), RegWrite(MinRegAddr, mi), RegWrite(SecRegAddr, sec)];
    var r1 := before.(year := y);
    var r2 := r1.(month := mo);
    var r3 := r2.(date := d);
    var r4 := r3.(hour := h);
    var r5 := r4.(minute := mi);
    var r6 := r5.(second := sec);
    assert ApplyWrites(r6, w[6..]) == r6;
    assert ApplyWrites(r5, w[5..]) == ApplyWrites(r6, w[6..]);
    assert ApplyWrites(r4, w[4..]) == ApplyWrites(r5, w[5..]);
    assert ApplyWrites(r3, w[3..]) == ApplyWrites(r4, w[4..]);
    assert ApplyWrites(r2, w[2..]) == ApplyWrites(r3, w[3..]);
    assert ApplyWrites(r1, w[1..]) == ApplyWrites(r2, w[2..]);
    assert ApplyWrites(before, w) == ApplyWrites(r1, w[1..]);
  }

  /** The registers after LibSetTime's writes hold the BCD form of each field, whatever
      they held before. */
  lemma {:induction false} SetTimeRegisters(t: EfiTime, before: RtcRegisters)
    requires TimeValid(t)
    ensures LibSetTimeWrites(t).Written?
    ensures ApplyWrites(before, LibSetTimeWrites(t).writes)
            == RtcRegisters(Bcd(t.second), Bcd(t.minute), Bcd(t.hour), Bcd(t.day),
                            Bcd(t.month), Bcd(t.year % 100))
  {
    assert LibSetTimeWrites(t).writes
           == [RegWrite(YearRegAddr, Bcd(t.year % 100)), RegWrite(MonthRegAddr, Bcd(t.month)),
               RegWrite(DateRegAddr, Bcd(t.day)), RegWrite(HourRegAddr, Bcd(t.hour)),
               RegWrite(MinRegAddr, Bcd(t.minute)), RegWrite(SecRegAddr, Bcd(t.second))];
    ApplyTimeWrites(before, Bcd(t.year % 100), Bcd(t.month), Bcd(t.day), Bcd(t.hour),
                    Bcd(t.minute), Bcd(t.second));
  }

  /** LibGetTime on registers holding the BCD form of a valid time in the 1998..2097
      window, with the time zone and daylight flags stored beside it, gives that time
      back, with zero nanoseconds. */
  lemma {:induction false} GetTimeOfEncodedTime(t: EfiTime)
    requires TimeValid(t) && 1998 <= t.year <= 2097
    ensures LibGetTimeFields(RtcRegisters(Bcd(t.second), Bcd(t.minute), Bcd(t.hour), Bcd(t.day),
                                          Bcd(t.month), Bcd(t.year % 100)),
                             Some(t.timeZone), Some(t.daylight as Byte))
            == t.(nanosecond := 0)
  {
    MaskKeepsSmallBcd(t.second, 128);
    MaskKeepsSmallBcd(t.minute, 128);
    MaskKeepsSmallBcd(t.hour, 64);
    assert t.day <= 31;
    MaskKeepsSmallBcd(t.day, 64);
    MaskKeepsSmallBcd(t.month, 32);
    YearRoundTripWindow(t.year);
  }

  /** Set-then-get: a valid time in the 1998..2097 window, written by LibSetTime and read
      back by LibGetTime with the time zone and daylight flags it stored, is returned
      unchanged except for the nanoseconds, which the clock does not keep. */
  lemma {:induction false} SetThenGetRoundTrip(t: EfiTime, before: RtcRegisters)
    requires TimeValid(t) && 1998 <= t.year <= 2097
    ensures LibSetTimeWrites(t).Written?
    ensures LibGetTimeFields(ApplyWrites(before, LibSetTimeWrites(t).writes),
                             Some(t.timeZone), Some(t.daylight as Byte))
            == t.(nanosecond := 0)
  {
    SetTimeRegisters(t, before);
    GetTimeOfEncodedTime(t);
  }
}
