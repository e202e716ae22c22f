/**
 * The kernel-wide calendar timestamp of src/lib.rs and its parser
 * `KTimestamp::from_yyyy_mm_dd`.
 *
 * The input is the string's UTF-8 bytes. Rust panics when a slice boundary
 * falls inside a multi-byte character; here such a byte (0x80..0xFF) is
 * simply not a digit, so the model answers `None` where Rust would panic.
 * On ASCII input the model and the code agree exactly.
 */
module Timestamp {
  import opened Wrappers

  type byte = x: int | 0 <= x < 256
  /** Rust's `u8` and `u64`. */
  type u8 = x: nat | x < 256
  type u64 = x: nat | x < 0x1_0000_0000_0000_0000

  const U8_MAX: nat := 255
  const U64_MAX: nat := 0xFFFF_FFFF_FFFF_FFFF

  const ZERO: byte := 48   // '0'
  const NINE: byte := 57   // '9'
  const PLUS: byte := 43   // '+'
  const HYPHEN: byte := 45 // '-'

  /**
   * `KTimestamp`. The three `f32` sub-day fields are kept as whole numbers:
   * the parser only ever stores 0.0 in them.
   */
  datatype KTimestamp = KTimestamp(day: u8, month: u8, year: u64, hour: nat, min: nat, sec: nat)

  // ---------------------------------------------------------------------
  // Unsigned integer parsing (`str::parse::<u8>` / `str::parse::<u64>`)
  // ---------------------------------------------------------------------

  predicate IsDigit(b: byte) {
    ZERO <= b <= NINE
  }

  predicate AllDigits(ds: seq<byte>) {
    forall i :: 0 <= i < |ds| ==> IsDigit(ds[i])
  }

  function DigitValue(b: byte): (d: nat)
    requires IsDigit(b)
    ensures d < 10
  {
    b - ZERO
  }

  function Pow10(k: nat): (p: nat)
    ensures p >= 1
  {
    if k == 0 then 1 else 10 * Pow10(k - 1)
  }

  /** The decimal value of a run of digits, most significant first. */
  function DigitsValue(ds: seq<byte>): nat
    requires AllDigits(ds)
  {
    if |ds| == 0 then 0 else 10 * DigitsValue(ds[..|ds| - 1]) + DigitValue(ds[|ds| - 1])
  }

  /** The part of a literal that must be digits: everything after an optional leading '+'. */
  function Magnitude(s: seq<byte>): (ds: seq<byte>)
    ensures |ds| <= |s| && ds == s[|s| - |ds|..]
  {
    if |s| > 0 && s[0] == PLUS then s[1..] else s
  }

  /**
   * `s.parse::<uN>()` where `max` is the largest `uN`: an optional '+',
   * then at least one ASCII digit and nothing else, and no overflow.
   * Rust's unsigned parser reads a leading '-' as an invalid digit.
   */
  function ParseUnsigned(s: seq<byte>, max: nat): (r: Option<nat>)
    ensures r.Some? ==> r.value <= max
    ensures r.Some? ==> 0 < |Magnitude(s)| && AllDigits(Magnitude(s)) && r.value == DigitsValue(Magnitude(s))
  {
    var ds := Magnitude(s);
    if |ds| == 0 || !AllDigits(ds) then None
    else if DigitsValue(ds) > max then None
    else Some(DigitsValue(ds))
  }

  /** Any byte that is neither a digit nor the one leading '+' makes the parse fail. */
  lemma ParseRejectsNonDigit(s: seq<byte>, max: nat, i: nat)
    requires i < |s| && !IsDigit(s[i]) && !(i == 0 && s[0] == PLUS)
    ensures ParseUnsigned(s, max).None?
  {
    var ds := Magnitude(s);
    if |ds| > 0 {
      var j := i - (|s| - |ds|);
      assert 0 <= j < |ds| && ds[j] == s[i];
    }
  }

  /** The empty slice and a lone '+' are not numbers. */
  lemma ParseRejectsEmpty(max: nat)
    ensures ParseUnsigned([], max).None?
    ensures ParseUnsigned([PLUS], max).None?
  {
  }

  /** A one-byte slice parses exactly when it is a digit, to that digit's value. */
  lemma ParseOneByte(b: byte, max: nat)
    requires max >= 9
    ensures ParseUnsigned([b], max) == if IsDigit(b) then Some(DigitValue(b)) else None
  {
    if IsDigit(b) {
      assert Magnitude([b]) == [b];
      assert [b][..0] == [];
      assert DigitsValue([b]) == 10 * DigitsValue([]) + DigitValue(b);
    }
  }

  lemma {:induction false} DigitsValueBound(ds: seq<byte>)
    requires AllDigits(ds)
    ensures DigitsValue(ds) < Pow10(|ds|)
  {
    if |ds| > 0 {
      DigitsValueBound(ds[..|ds| - 1]);
    }
  }

  /** A successful parse of an n-byte slice is below 10^n. */
  lemma ParseBound(s: seq<byte>, max: nat)
    requires ParseUnsigned(s, max).Some?
    ensures ParseUnsigned(s, max).value < Pow10(|s|)
  {
    var ds := Magnitude(s);
    DigitsValueBound(ds);
    Pow10Monotone(|ds|, |s|);
  }

  lemma {:induction false} Pow10Monotone(j: nat, k: nat)
    requires j <= k
    ensures Pow10(j) <= Pow10(k)
  {
    if j < k {
      Pow10Monotone(j, k - 1);
    }
  }

  /** `n` written in exactly `width` decimal digits, zero padded (high digits dropped). */
  function PadDigits(n: nat, width: nat): (ds: seq<byte>)
    ensures |ds| == width && AllDigits(ds)
  {
    if width == 0 then [] else PadDigits(n / 10, width - 1) + [ZERO + n % 10]
  }

  /** The two digits of a number below 100. */
  lemma PadTwoDigits(n: nat)
    requires n < 100
    ensures PadDigits(n, 2) == [ZERO + n / 10, ZERO + n % 10]
  {
    assert PadDigits(n / 10, 1) == PadDigits(n / 100, 0) + [ZERO + (n / 10) % 10];
  }

  lemma TensBelow(n: nat, p: nat)
    requires n < 10 * p
    ensures n / 10 < p
  {
  }

  lemma TensAndUnits(n: nat)
    ensures 10 * (n / 10) + n % 10 == n
  {
  }

  /** Appending a digit shifts the value one place and adds the digit. */
  lemma DigitsValueSnoc(high: seq<byte>, d: byte)
    requires AllDigits(high) && IsDigit(d)
    ensures AllDigits(high + [d]) && DigitsValue(high + [d]) == 10 * DigitsValue(high) + DigitValue(d)
  {
    assert (high + [d])[..|high|] == high;
  }

  /** Reading back a padded number gives the number, if it fits the width. */
  lemma {:induction false} PadDigitsValue(n: nat, width: nat)
    requires n < Pow10(width)
    ensures DigitsValue(PadDigits(n, width)) == n
  {
    if width > 0 {
      var q, d := n / 10, n % 10;
      TensAndUnits(n);
      var high := PadDigits(q, width - 1);
      assert PadDigits(n, width) == high + [ZERO + d];
      DigitsValueSnoc(high, ZERO + d);
      assert Pow10(width) == 10 * Pow10(width - 1);
      TensBelow(n, Pow10(width - 1));
      PadDigitsValue(q, width - 1);
    }
  }

  /** Parsing a padded number succeeds with that number (the parse/print round trip). */
  lemma ParsePadded(n: nat, width: nat, max: nat)
    requires 0 < width && n < Pow10(width) && n <= max
    ensures ParseUnsigned(PadDigits(n, width), max) == Some(n)
  {
    PadDigitsValue(n, width);
  }

  /** A leading '+' is accepted in front of the digits. */
  lemma ParsePlusPadded(n: nat, width: nat, max: nat)
    requires 0 < width && n < Pow10(width) && n <= max
    ensures ParseUnsigned([PLUS] + PadDigits(n, width), max) == Some(n)
  {
    var ds := PadDigits(n, width);
    assert Magnitude([PLUS] + ds) == ds;
    PadDigitsValue(n, width);
  }

  // ---------------------------------------------------------------------
  // Calendar rules
  // ---------------------------------------------------------------------

  /** The months the source lists as having 31 days. */
  const MONTH_31DAYS: seq<nat> := [1, 3, 5, 7, 8, 10, 12]

  /**
   * The leap-year test exactly as the source writes it. Its redundant
   * `year % 100 == 0` conjunct does not change the Gregorian rule.
   */
  predicate SourceLeap(year: nat): (leap: bool)
    ensures leap <==> IsGregorianLeap(year)
  {
    Div400IsDiv100(year);
    (year % 400 == 0 && year % 100 == 0) || (year % 4 == 0 && year % 100 != 0)
  }

  lemma Div400IsDiv100(year: nat)
    ensures year % 400 == 0 ==> year % 100 == 0
  {
    if year % 400 == 0 {
      var k := year / 400;
      assert year == 100 * (4 * k);
    }
  }

  /** The Gregorian rule: divisible by 400, or by 4 and not by 100. */
  predicate IsGregorianLeap(year: nat) {
    year % 400 == 0 || (year % 4 == 0 && year % 100 != 0)
  }

  /**
   * The day limit as the source computes it once the month is known; for
   * every real month it is that month's length in the Gregorian calendar.
   */
  function DayMax(month: nat, year: nat): (m: nat)
    ensures 28 <= m <= 31
    ensures 1 <= month <= 12 ==> m == DaysInMonth(month, year)
  {
    if month in MONTH_31DAYS then 31
    else if month == 2 then (if SourceLeap(year) then 29 else 28)
    else 30
  }

  /** The length of a month in the Gregorian calendar. */
  function DaysInMonth(month: nat, year: nat): nat
    requires 1 <= month <= 12
  {
    match month
    case 2 => if IsGregorianLeap(year) then 29 else 28
    case 4 | 6 | 9 | 11 => 30
    case _ => 31
  }

  // ---------------------------------------------------------------------
  // The parser as written
  // ---------------------------------------------------------------------

  /**
   * `KTimestamp::from_yyyy_mm_dd` as written: the slices are `s[0..3]`,
   * `s[5..6]` and `s[8..9]`, and the day has no lower bound.
   */
  function FromYyyyMmDd(s: seq<byte>): (r: Option<KTimestamp>)
    ensures |s| != 10 ==> r.None?
    ensures r.Some? ==> 1 <= r.value.month <= 12
    ensures r.Some? ==> r.value.day <= DaysInMonth(r.value.month, r.value.year)
    ensures r.Some? ==> r.value.hour == 0 && r.value.min == 0 && r.value.sec == 0
  {
    if |s| != 10 then None
    else CheckFields(ParseUnsigned(s[0..3], U64_MAX), ParseUnsigned(s[5..6], U8_MAX), ParseUnsigned(s[8..9], U8_MAX))
  }

  /**
   * The checks `from_yyyy_mm_dd` makes once its three slices are parsed:
   * each parse must have succeeded, the month must be 1 to 12 and the day
   * at most that month's length. There is no lower bound on the day.
   */
  function CheckFields(year: Option<nat>, month: Option<nat>, day: Option<nat>): (r: Option<KTimestamp>)
    requires year.Some? ==> year.value <= U64_MAX
    requires month.Some? ==> month.value <= U8_MAX
    requires day.Some? ==> day.value <= U8_MAX
    ensures r.Some? <==>
      && year.Some? && month.Some? && day.Some?
      && 1 <= month.value <= 12 && day.value <= DaysInMonth(month.value, year.value)
    ensures r.Some? ==> r.value == KTimestamp(day.value, month.value, year.value, 0, 0, 0)
  {
    if year.None? then None
    else if month.None? then None
    else if !(1 <= month.value <= 12) then None
    else if day.None? then None
    else if day.value > DayMax(month.value, year.value) then None
    else Some(KTimestamp(day.value, month.value, year.value, 0, 0, 0))
  }

  /**
   * What the code accepts, byte by byte: length 10, a number in bytes 0..2,
   * a non-zero digit in byte 5 and a digit in byte 8 no larger than that
   * month's length.
   */
  predicate AcceptedAsWritten(s: seq<byte>) {
    && |s| == 10
    && var year := ParseUnsigned(s[0..3], U64_MAX);
       && year.Some?
       && IsDigit(s[5]) && s[5] != ZERO
       && IsDigit(s[8])
       && DigitValue(s[8]) <= DaysInMonth(DigitValue(s[5]), year.value)
  }

  /** A one-byte field slice parses to the digit at that position, or fails. */
  lemma OneByteField(s: seq<byte>, i: nat)
    requires i < |s|
    ensures ParseUnsigned(s[i..i + 1], U8_MAX) == if IsDigit(s[i]) then Some(DigitValue(s[i])) else None
  {
    assert s[i..i + 1] == [s[i]];
    ParseOneByte(s[i], U8_MAX);
  }

  lemma YearBelow1000(s: seq<byte>)
    requires |s| == 10 && ParseUnsigned(s[0..3], U64_MAX).Some?
    ensures ParseUnsigned(s[0..3], U64_MAX).value <= 999
  {
    ParseBound(s[0..3], U64_MAX);
    assert Pow10(3) == 1000;
  }

  /** The parser as written is the field checks applied to its three slice parses. */
  lemma FromYyyyMmDdFields(s: seq<byte>)
    requires |s| == 10
    ensures FromYyyyMmDd(s) ==
      CheckFields(ParseUnsigned(s[0..3], U64_MAX), ParseUnsigned(s[5..6], U8_MAX), ParseUnsigned(s[8..9], U8_MAX))
  {
  }

  /** The field checks on a parsed year and two single month and day bytes. */
  lemma CheckDigitFields(year: Option<nat>, m: byte, d: byte)
    requires year.Some? ==> year.value <= U64_MAX
    ensures var r := CheckFields(year,
                                 if IsDigit(m) then Some(DigitValue(m)) else None,
                                 if IsDigit(d) then Some(DigitValue(d)) else None);
      && (r.Some? <==> year.Some? && IsDigit(m) && m != ZERO && IsDigit(d)
                       && DigitValue(d) <= DaysInMonth(DigitValue(m), year.value))
      && (r.Some? ==> r.value == KTimestamp(DigitValue(d), DigitValue(m), year.value, 0, 0, 0))
  {
  }

  /** The parser as written succeeds exactly on the inputs `AcceptedAsWritten` describes. */
  lemma FromYyyyMmDdAccepts(s: seq<byte>)
    ensures FromYyyyMmDd(s).Some? <==> AcceptedAsWritten(s)
  {
    if AcceptedAsWritten(s) {
      FromYyyyMmDdValue(s);
    } else if |s| == 10 {
      RejectedIsNone(s);
    }
  }

  lemma RejectedIsNone(s: seq<byte>)
    requires |s| == 10 && !AcceptedAsWritten(s)
    ensures FromYyyyMmDd(s).None?
  {
    FromYyyyMmDdFields(s);
    OneByteField(s, 5);
    OneByteField(s, 8);
    CheckDigitFields(ParseUnsigned(s[0..3], U64_MAX), s[5], s[8]);
  }

  /** On an accepted input, what the parser as written returns. */
  lemma FromYyyyMmDdValue(s: seq<byte>)
    requires AcceptedAsWritten(s)
    ensures ParseUnsigned(s[0..3], U64_MAX).value <= 999
    ensures FromYyyyMmDd(s) ==
      Some(KTimestamp(DigitValue(s[8]), DigitValue(s[5]), ParseUnsigned(s[0..3], U64_MAX).value, 0, 0, 0))
  {
    FromYyyyMmDdFields(s);
    OneByteField(s, 5);
    OneByteField(s, 8);
    CheckDigitFields(ParseUnsigned(s[0..3], U64_MAX), s[5], s[8]);
    YearBelow1000(s);
  }

  /** A successful month is a single non-zero digit: October to December are never read. */
  lemma MonthIsOneDigit(s: seq<byte>)
    requires FromYyyyMmDd(s).Some?
    ensures 1 <= FromYyyyMmDd(s).value.month <= 9
    ensures FromYyyyMmDd(s).value.day <= 9
    ensures FromYyyyMmDd(s).value.year <= 999
  {
    FromYyyyMmDdAccepts(s);
    FromYyyyMmDdValue(s);
  }

  /** Any field slice that is not a number makes the whole parse fail. */
  lemma FieldNotNumberIsNone(s: seq<byte>)
    requires |s| == 10
    requires ParseUnsigned(s[0..3], U64_MAX).None? || !IsDigit(s[5]) || !IsDigit(s[8])
    ensures FromYyyyMmDd(s).None?
  {
    FromYyyyMmDdAccepts(s);
  }

  /** Bytes 3, 4, 6, 7 and 9 (the hyphens among them) are never looked at. */
  lemma OnlyFieldBytesMatter(s: seq<byte>, t: seq<byte>)
    requires |s| == |t|
    requires |s| == 10 ==> s[0] == t[0] && s[1] == t[1] && s[2] == t[2] && s[5] == t[5] && s[8] == t[8]
    ensures FromYyyyMmDd(s) == FromYyyyMmDd(t)
  {
    if |s| == 10 {
      assert s[0..3] == t[0..3];
      assert s[5..6] == t[5..6];
      assert s[8..9] == t[8..9];
    }
  }

  // ---------------------------------------------------------------------
  // The parser as evidently intended
  // ---------------------------------------------------------------------

  /** A timestamp the intended parser may produce. */
  predicate ValidDate(t: KTimestamp) {
    && 1 <= t.month <= 12
    && 1 <= t.day <= DaysInMonth(t.month, t.year)
    && t.hour == 0 && t.min == 0 && t.sec == 0
  }

  /**
   * The evidently intended parser (NOT the code): the `full-date` layout of
   * section 5.6 of RFC 3339, slices `s[0..4]`, `s[5..7]`, `s[8..10]`, with
   * the limits of section 5.7 including `day >= 1`. Like the code, it does
   * not look at the separators.
   */
  function FromYyyyMmDdIntended(s: seq<byte>): (r: Option<KTimestamp>)
    ensures |s| != 10 ==> r.None?
    ensures r.Some? ==> ValidDate(r.value) && r.value.year <= 9999
  {
    if |s| != 10 then None
    else
      var year := ParseUnsigned(s[0..4], U64_MAX);
      var fields := CheckFields(year, ParseUnsigned(s[5..7], U8_MAX), ParseUnsigned(s[8..10], U8_MAX));
      if fields.None? || fields.value.day < 1 then None
      else
        ParseBound(s[0..4], U64_MAX);
        assert Pow10(4) == 10000;
        fields
  }


  /** `yyyy-mm-dd`, as the layout comment above the parser describes it. */
  function Format(t: KTimestamp): (s: seq<byte>)
    ensures |s| == 10 && s[4] == HYPHEN && s[7] == HYPHEN
  {
    PadDigits(t.year, 4) + [HYPHEN] + PadDigits(t.month, 2) + [HYPHEN] + PadDigits(t.day, 2)
  }

  /**
   * On its own layout the intended parser accepts exactly the valid dates
   * and reads them back unchanged.
   */
  lemma IntendedOnFormatted(t: KTimestamp)
    requires t.year <= 9999 && t.month <= 99 && t.day <= 99
    requires t.hour == 0 && t.min == 0 && t.sec == 0
    ensures FromYyyyMmDdIntended(Format(t)) == if ValidDate(t) then Some(t) else None
  {
    var s := Format(t);
    assert s[0..4] == PadDigits(t.year, 4);
    assert s[5..7] == PadDigits(t.month, 2);
    assert s[8..10] == PadDigits(t.day, 2);
    assert Pow10(4) == 10000;
    ParsePadded(t.year, 4, U64_MAX);
    ParsePadded(t.month, 2, U8_MAX);
    ParsePadded(t.day, 2, U8_MAX);
  }

  /** The intended parser reads back every four-digit-year date written in its own layout. */
  lemma IntendedRoundTrip(t: KTimestamp)
    requires ValidDate(t) && t.year <= 9999
    ensures FromYyyyMmDdIntended(Format(t)) == Some(t)
  {
    IntendedOnFormatted(t);
  }

  /** The leap-day cases of the calendar, run through the intended parser. */
  lemma IntendedLeapDays()
    ensures FromYyyyMmDdIntended(Format(KTimestamp(29, 2, 2024, 0, 0, 0))).Some?
    ensures FromYyyyMmDdIntended(Format(KTimestamp(29, 2, 2023, 0, 0, 0))).None?
    ensures FromYyyyMmDdIntended(Format(KTimestamp(29, 2, 2000, 0, 0, 0))).Some?
    ensures FromYyyyMmDdIntended(Format(KTimestamp(29, 2, 1900, 0, 0, 0))).None?
  {
    assert IsGregorianLeap(2024) && !IsGregorianLeap(2023);
    assert IsGregorianLeap(2000) && !IsGregorianLeap(1900);
    IntendedLeapDay(2024);
    IntendedLeapDay(2023);
    IntendedLeapDay(2000);
    IntendedLeapDay(1900);
  }

  lemma IntendedLeapDay(year: u64)
    requires year <= 9999
    ensures FromYyyyMmDdIntended(Format(KTimestamp(29, 2, year, 0, 0, 0))).Some? <==> IsGregorianLeap(year)
  {
    IntendedOnFormatted(KTimestamp(29, 2, year, 0, 0, 0));
  }

  /** Out-of-range months and days, run through the intended parser. */
  lemma IntendedOutOfRange()
    ensures FromYyyyMmDdIntended(Format(KTimestamp(1, 13, 2023, 0, 0, 0))).None?
    ensures FromYyyyMmDdIntended(Format(KTimestamp(31, 4, 2023, 0, 0, 0))).None?
    ensures FromYyyyMmDdIntended(Format(KTimestamp(0, 1, 2023, 0, 0, 0))).None?
  {
    IntendedOnFormatted(KTimestamp(1, 13, 2023, 0, 0, 0));
    IntendedOnFormatted(KTimestamp(31, 4, 2023, 0, 0, 0));
    IntendedOnFormatted(KTimestamp(0, 1, 2023, 0, 0, 0));
  }

  /**
   * What the code as written makes of a well-formed date: it reads the first
   * three year digits, the tens digit of the month and the tens digit of
   * the day, so January to September are all rejected and October to
   * December come back as month 1.
   */
  lemma AsWrittenMisreadsFormatted(t: KTimestamp)
    requires ValidDate(t) && t.year <= 9999
    ensures FromYyyyMmDd(Format(t)) ==
      if t.month < 10 then None else Some(KTimestamp(t.day / 10, 1, t.year / 10, 0, 0, 0))
  {
    var s := Format(t);
    FormattedFieldBytes(t);
    if t.month < 10 {
      assert s[5] == ZERO;
      RejectedIsNone(s);
    } else {
      YearOfFormatted(t);
      assert t.month / 10 == 1 && t.day / 10 <= 3;
      assert DigitValue(s[5]) == 1 && DigitValue(s[8]) == t.day / 10;
      assert AcceptedAsWritten(s);
      FromYyyyMmDdValue(s);
    }
  }

  /** The bytes the code as written reads from a formatted date. */
  lemma FormattedFieldBytes(t: KTimestamp)
    requires t.month <= 99 && t.day <= 99
    ensures Format(t)[0..3] == PadDigits(t.year / 10, 3)
    ensures Format(t)[5] == ZERO + t.month / 10
    ensures Format(t)[8] == ZERO + t.day / 10
  {
    PadTwoDigits(t.month);
    PadTwoDigits(t.day);
  }

  lemma YearOfFormatted(t: KTimestamp)
    requires t.year <= 9999 && t.month <= 99 && t.day <= 99
    ensures ParseUnsigned(Format(t)[0..3], U64_MAX) == Some(t.year / 10)
  {
    FormattedFieldBytes(t);
    assert Pow10(3) == 1000;
    ParsePadded(t.year / 10, 3, U64_MAX);
  }

  // ---------------------------------------------------------------------
  // Concrete inputs
  // ---------------------------------------------------------------------

  /** "2024-02-29": a leap day, rejected as written and accepted as intended. */
  lemma LeapDayRejectedAsWritten()
    ensures FromYyyyMmDd([50, 48, 50, 52, 45, 48, 50, 45, 50, 57]).None?
    ensures FromYyyyMmDdIntended([50, 48, 50, 52, 45, 48, 50, 45, 50, 57]) == Some(KTimestamp(29, 2, 2024, 0, 0, 0))
  {
    var t := KTimestamp(29, 2, 2024, 0, 0, 0);
    assert Format(t) == [50, 48, 50, 52, 45, 48, 50, 45, 50, 57];
    AsWrittenMisreadsFormatted(t);
    IntendedRoundTrip(t);
  }

  lemma YearSliceOf202(s: seq<byte>)
    requires |s| == 10 && s[0] == 50 && s[1] == 48 && s[2] == 50
    ensures ParseUnsigned(s[0..3], U64_MAX) == Some(202)
  {
    assert PadDigits(202, 3) == [50, 48, 50];
    assert s[0..3] == PadDigits(202, 3);
    assert Pow10(3) == 1000;
    ParsePadded(202, 3, U64_MAX);
  }

  lemma MonthSliceOf13(s: seq<byte>)
    requires |s| == 10 && s[5] == 49 && s[6] == 51
    ensures ParseUnsigned(s[5..7], U8_MAX) == Some(13)
  {
    PadTwoDigits(13);
    assert s[5..7] == PadDigits(13, 2);
    ParsePadded(13, 2, U8_MAX);
  }

  /** The intended parser rejects month 13. */
  lemma MonthThirteenRejected(s: seq<byte>)
    requires |s| == 10 && s[5] == 49 && s[6] == 51
    ensures FromYyyyMmDdIntended(s).None?
  {
    MonthSliceOf13(s);
  }

  /** "2023-13-01": month 13, yet the code accepts it as day 0 of month 1 of year 202. */
  lemma DayZeroAcceptedAsWritten(s: seq<byte>)
    requires s == [50, 48, 50, 51, 45, 49, 51, 45, 48, 49]
    ensures FromYyyyMmDd(s) == Some(KTimestamp(0, 1, 202, 0, 0, 0))
    ensures FromYyyyMmDdIntended(s).None?
  {
    YearSliceOf202(s);
    assert IsDigit(s[5]) && DigitValue(s[5]) == 1;
    assert IsDigit(s[8]) && DigitValue(s[8]) == 0;
    assert AcceptedAsWritten(s);
    FromYyyyMmDdValue(s);
    MonthThirteenRejected(s);
  }
}
