/** The CMOS real-time clock driver's arithmetic: decoding the raw clock
    registers (packed BCD or binary, 12- or 24-hour) and turning the
    calendar reading into seconds since 1970-01-01 00:00. Reading the CMOS
    ports is outside the model: a reading is given as the register values. */
module Rtc {
  import opened Common

  /** The registers one `read_unchecked_time` reads: 0, 2, 4, 7, 8, 9, the
      century register (if the ACPI FADT named one) and status register B. */
  datatype Registers = Registers(second: bv8, minute: bv8, hour: bv8, day: bv8, month: bv8, year: bv8,
                                 century: bv8, registerB: bv8)

  /** `cvt_bcd`: the low nibble plus ten times the rest. */
  function CvtBcd(value: nat): (r: nat)
    ensures value < 0x100 ==> r <= 165
  {
    value % 16 + (value / 16) * 10
  }

  /** Packs a two-digit decimal number as BCD: tens in the high nibble. */
  function EncodeBcd(n: nat): (b: nat)
    requires n < 100
    ensures b < 0x100 && b % 16 < 10 && b / 16 < 10
  {
    (n / 10) * 16 + n % 10
  }

  /** `cvt_bcd` decodes every two-digit packed-BCD byte. */
  lemma CvtBcdDecodes(n: nat)
    requires n < 100
    ensures CvtBcd(EncodeBcd(n)) == n
  {
    var t, u := n / 10, n % 10;
    assert EncodeBcd(n) == t * 16 + u;
    assert (t * 16 + u) % 16 == u && (t * 16 + u) / 16 == t;
  }

  /** ... and every valid BCD byte is the encoding of its decoded value. */
  lemma CvtBcdIsInverse(b: nat)
    requires b < 0x100 && b % 16 < 10 && b / 16 < 10
    ensures CvtBcd(b) < 100 && EncodeBcd(CvtBcd(b)) == b
  {
    var t, u := b / 16, b % 16;
    assert CvtBcd(b) == t * 10 + u;
    assert (t * 10 + u) / 10 == t && (t * 10 + u) % 10 == u;
  }

  /** The clock fields after decoding, before the Unix-time arithmetic. */
  datatype Fields = Fields(second: nat, minute: nat, hour: nat, day: nat, month: nat, year: nat)

  /** Register B bit 2 set means binary values; clear means BCD. */
  predicate BinaryMode(registerB: bv8) { registerB & 4 == 4 }

  /** Register B bit 1 set means 24-hour mode. */
  predicate Hour24Mode(registerB: bv8) { registerB & 2 == 2 }

  /** The hour register with its low seven bits BCD-decoded and its PM bit
      (bit 7) kept. */
  function DecodeHourBcd(hour: bv8): (h: bv8)
    ensures h & 0x80 == hour & 0x80
    ensures h & 0x7F == CvtBcd((hour & 0x7F) as nat) as bv8
  {
    var low := CvtBcd((hour & 0x7F) as nat);
    assert low <= 85;
    var lb := low as bv8;
    assert lb < 0x80;
    OrLow(lb, hour);
    lb | (hour & 0x80)
  }

  /** Or-ing the PM bit onto a value below 0x80 keeps both parts apart. */
  lemma OrLow(low: bv8, hour: bv8)
    requires low < 0x80
    ensures (low | (hour & 0x80)) & 0x7F == low
    ensures (low | (hour & 0x80)) & 0x80 == hour & 0x80
  {
  }

  /** The 12/24-hour fix-up as written: it applies whenever the clock is in
      12-hour mode *or* the PM bit is set. */
  function FixHour(registerB: bv8, hour: bv8): (h: nat)
    ensures h < 24 || h == hour as nat
  {
    if !Hour24Mode(registerB) || hour & 0x80 == 0x80 then ((hour & 0x7F) as nat + 12) % 24
    else hour as nat
  }

  /** A register's value: as is in binary mode, BCD-decoded otherwise. */
  function Decode(binary: bool, b: bv8): nat {
    if binary then b as nat else CvtBcd(b as nat)
  }

  /** Every decoding step of `read_unchecked_time` up to the century
      addition. Without a century register the century is 20, undecoded. */
  function DecodeFields(regs: Registers, hasCentury: bool): (f: Fields)
  {
    var binary := BinaryMode(regs.registerB);
    var century := if !hasCentury then 20
                   else if binary then regs.century as nat else CvtBcd(regs.century as nat);
    var hour := if binary then regs.hour else DecodeHourBcd(regs.hour);
    Fields(Decode(binary, regs.second), Decode(binary, regs.minute), FixHour(regs.registerB, hour),
           Decode(binary, regs.day), Decode(binary, regs.month), Decode(binary, regs.year) + century * 100)
  }

  /** The seconds from 1 January to the first of `month` in a common year,
      as the source's table writes them; any other month adds nothing. */
  function MonthOffset(month: nat): nat {
    match month
    case 2 => 2_678_400
    case 3 => 5_097_600
    case 4 => 7_776_000
    case 5 => 10_368_000
    case 6 => 13_046_400
    case 7 => 15_638_400
    case 8 => 18_316_800
    case 9 => 20_995_200
    case 10 => 23_587_200
    case 11 => 26_265_600
    case 12 => 28_857_600
    case _ => 0
  }

  const SUB_OVERFLOW: string := "attempt to subtract with overflow"

  /** The Unix-time arithmetic of `read_unchecked_time`. The `u64`
      subtractions `year - 1970`, `year - 1972` and `day - 1` panic (in a
      debug build) below 1972 or on day 0. */
  function UnixSeconds(f: Fields): (r: Outcome<nat>)
    ensures r.Panic? <==> f.year < 1972 || f.day == 0
  {
    if f.year < 1970 || f.year < 1972 then Panic(SUB_OVERFLOW)
    else
      var leapDays := (f.year - 1972) / 4 + 1;
      var leapDays' := if f.year % 4 == 0 && f.month <= 2 then leapDays - 1 else leapDays;
      if f.day == 0 then Panic(SUB_OVERFLOW)
      else Ok((f.year - 1970) * 31_536_000 + leapDays' * 86_400 + MonthOffset(f.month)
              + (f.day - 1) * 86_400 + f.hour * 3600 + f.minute * 60 + f.second)
  }

  /** `read_unchecked_time` as a function of the register values. */
  function ReadUncheckedTime(regs: Registers, hasCentury: bool): (r: Outcome<nat>)
    ensures r.Panic? <==> DecodeFields(regs, hasCentury).year < 1972 || DecodeFields(regs, hasCentury).day == 0
  {
    UnixSeconds(DecodeFields(regs, hasCentury))
  }

  //////////////////////////////////////////////////////////////////////////////
  // A reference calendar
  //////////////////////////////////////////////////////////////////////////////

  /** The leap rule the source implements: every fourth year. */
  predicate Leap(y: nat) { y % 4 == 0 }

  function MonthDays(month: nat, leap: bool): nat
    requires 1 <= month <= 12
  {
    if month == 2 then (if leap then 29 else 28)
    else if month in {4, 6, 9, 11} then 30
    else 31
  }

  /** Days in the months before `month` of a year. */
  function DaysBeforeMonth(month: nat, leap: bool): nat
    requires 1 <= month <= 12
    decreases month
  {
    if month == 1 then 0 else DaysBeforeMonth(month - 1, leap) + MonthDays(month - 1, leap)
  }

  /** Days from 1970-01-01 to 1 January of `y`. */
  function DaysBeforeYear(y: nat): nat
    requires y >= 1970
    decreases y
  {
    if y == 1970 then 0 else DaysBeforeYear(y - 1) + (if Leap(y - 1) then 366 else 365)
  }

  /** Seconds since 1970-01-01 00:00 of a date and time, counted day by day. */
  function ReferenceSeconds(f: Fields): nat
    requires f.year >= 1970 && 1 <= f.month <= 12 && f.day >= 1
  {
    (DaysBeforeYear(f.year) + DaysBeforeMonth(f.month, Leap(f.year)) + f.day - 1) * 86_400
      + f.hour * 3600 + f.minute * 60 + f.second
  }

  /** The month table is 86400 seconds per day of the common-year months
      before the month. */
  lemma MonthOffsetIsDaysBefore(month: nat)
    requires 1 <= month <= 12
    ensures MonthOffset(month) == DaysBeforeMonth(month, false) * 86_400
  {
  }

  /** A leap year differs from a common one only after February. */
  lemma DaysBeforeMonthLeap(month: nat)
    requires 1 <= month <= 12
    ensures DaysBeforeMonth(month, true) == DaysBeforeMonth(month, false) + (if month > 2 then 1 else 0)
  {
  }

  /** `(y - 1972) / 4 + 1` counts the leap years from 1972 to `y` inclusive. */
  lemma {:induction false} DaysBeforeYearClosedForm(y: nat)
    requires y >= 1972
    ensures DaysBeforeYear(y) == (y - 1970) * 365 + (y - 1972) / 4 + 1 - (if Leap(y) then 1 else 0)
    decreases y
  {
    if y == 1972 {
      assert DaysBeforeYear(1971) == 365;
    } else {
      DaysBeforeYearClosedForm(y - 1);
      var t := y - 1 - 1972;
      assert (t + 1) / 4 - (if (t + 1) % 4 == 0 then 1 else 0) == t / 4 - (if t % 4 == 0 then 1 else 0) + (if t % 4 == 0 then 1 else 0);
    }
  }

  /** The source's arithmetic equals counting days, for every date from 1972
      on in the every-fourth-year calendar. */
  lemma UnixSecondsIsReference(f: Fields)
    requires f.year >= 1972 && 1 <= f.month <= 12 && f.day >= 1
    ensures UnixSeconds(f) == Ok(ReferenceSeconds(f))
  {
    DaysBeforeYearClosedForm(f.year);
    MonthOffsetIsDaysBefore(f.month);
    DaysBeforeMonthLeap(f.month);
  }

  /** 2000-01-01 00:00:00, read from BCD registers without a century
      register, is 946684800. */
  lemma Year2000Example()
    ensures ReadUncheckedTime(Registers(0, 0, 0, 0x01, 0x01, 0x00, 0, 0x02), false) == Ok(946_684_800)
  {
    Year2000Fields();
    Year2000Seconds();
  }

  lemma Year2000Seconds()
    ensures UnixSeconds(Fields(0, 0, 0, 1, 1, 2000)) == Ok(946_684_800)
  {
  }

  lemma Year2000Fields()
    ensures DecodeFields(Registers(0, 0, 0, 0x01, 0x01, 0x00, 0, 0x02), false) == Fields(0, 0, 0, 1, 1, 2000)
  {
    Year2000Time();
    Year2000Date();
  }

  lemma Year2000Time()
    ensures var f := DecodeFields(Registers(0, 0, 0, 0x01, 0x01, 0x00, 0, 0x02), false);
            f.second == 0 && f.minute == 0 && f.hour == 0
  {
  }

  lemma Year2000Date()
    ensures var f := DecodeFields(Registers(0, 0, 0, 0x01, 0x01, 0x00, 0, 0x02), false);
            f.day == 1 && f.month == 1 && f.year == 2000
  {
  }

  /** In 12-hour mode the source adds 12 to every hour, AM ones included
      (1 AM reads as 13); a PM hour in 24-hour mode is shifted too. */
  lemma TwelveHourModeShiftsEveryHour(registerB: bv8, hour: bv8)
    requires !Hour24Mode(registerB) || hour & 0x80 == 0x80
    ensures FixHour(registerB, hour) == ((hour & 0x7F) as nat + 12) % 24
  {
  }

  /** In 24-hour mode an hour without bit 7 passes through. */
  lemma TwentyFourHourModeKeepsHour(registerB: bv8, hour: bv8)
    requires Hour24Mode(registerB) && hour & 0x80 == 0
    ensures FixHour(registerB, hour) == hour as nat
  {
  }

  /** In BCD mode each field is the decoded value of its register. */
  lemma BcdFieldsDecode(regs: Registers, hasCentury: bool)
    requires !BinaryMode(regs.registerB)
    ensures var f := DecodeFields(regs, hasCentury);
            && f.second == CvtBcd(regs.second as nat) && f.minute == CvtBcd(regs.minute as nat)
            && f.hour == FixHour(regs.registerB, DecodeHourBcd(regs.hour))
            && f.day == CvtBcd(regs.day as nat) && f.month == CvtBcd(regs.month as nat)
            && f.year == CvtBcd(regs.year as nat) + (if hasCentury then CvtBcd(regs.century as nat) else 20) * 100
  {
  }

  //////////////////////////////////////////////////////////////////////////////
  // Reading twice
  //////////////////////////////////////////////////////////////////////////////

  /** The reference for `time`: readings are taken in pairs, and the first
      pair of equal readings gives the time. `None` means the readings ran
      out (the source would keep reading). */
  function TimeFrom(readings: seq<Registers>, hasCentury: bool, k: nat): (r: Outcome<Option<nat>>)
    decreases |readings| - 2 * k
    ensures r.Ok? && r.value.Some? ==>
              exists j :: k <= j && 2 * j + 1 < |readings|
                          && ReadUncheckedTime(readings[2 * j], hasCentury) == Ok(r.value.value)
                          && ReadUncheckedTime(readings[2 * j + 1], hasCentury) == Ok(r.value.value)
  {
    if 2 * k + 1 >= |readings| then Ok(None)
    else
      match ReadUncheckedTime(readings[2 * k], hasCentury)
      case Panic(m) => Panic(m)
      case Ok(t0) =>
        match ReadUncheckedTime(readings[2 * k + 1], hasCentury)
        case Panic(m) => Panic(m)
        case Ok(t1) => if t0 == t1 then Ok(Some(t0)) else TimeFrom(readings, hasCentury, k + 1)
  }

  /** `time`: the read-twice-until-equal loop. */
  method Time(readings: seq<Registers>, hasCentury: bool) returns (r: Outcome<Option<nat>>)
    ensures r == TimeFrom(readings, hasCentury, 0)
    ensures r.Ok? && r.value.Some? ==>
              exists j :: 0 <= j && 2 * j + 1 < |readings|
                          && ReadUncheckedTime(readings[2 * j], hasCentury) == Ok(r.value.value)
                          && ReadUncheckedTime(readings[2 * j + 1], hasCentury) == Ok(r.value.value)
  {
    var k := 0;
    while 2 * k + 1 < |readings|
      invariant TimeFrom(readings, hasCentury, k) == TimeFrom(readings, hasCentury, 0)
      decreases |readings| - 2 * k
    {
      var time0 := ReadUncheckedTime(readings[2 * k], hasCentury);
      if time0.Panic? {
        return Panic(time0.message);
      }
      var time1 := ReadUncheckedTime(readings[2 * k + 1], hasCentury);
      if time1.Panic? {
        return Panic(time1.message);
      }
      if time0.value == time1.value {
        return Ok(Some(time0.value));
      }
      k := k + 1;
    }
    return Ok(None);
  }
}
