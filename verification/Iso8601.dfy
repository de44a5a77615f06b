/** The timestamp codec of the command-line tool: nanoseconds since the Unix
    epoch to `YYYY-MM-DDTHH:MM:SS.NNNNNNNNNZ` and back. The accepted language is
    a strict subset of section 5.6 of RFC 3339. */
module Iso8601 {
  import opened Wrappers
  import opened Sequences
  import opened Decimal
  import opened Calendar

  const U64 := 0x1_0000_0000_0000_0000
  const NANOS := 1_000_000_000

  const DASH: Byte := 45
  const COLON: Byte := 58
  const DOT: Byte := 46
  const LETTER_T: Byte := 84
  const LETTER_Z: Byte := 90

  /** A broken-down instant, to the second. */
  datatype Clock = Clock(date: Date, hour: int, minute: int, second: int)

  predicate ValidClock(c: Clock) {
    && Valid(c.date) && 1970 <= c.date.year <= 9999
    && 0 <= c.hour <= 23 && 0 <= c.minute <= 59 && 0 <= c.second <= 59
  }

  function Seconds(c: Clock): int {
    DaysFromCivil(c.date) * 86_400 + c.hour * 3_600 + c.minute * 60 + c.second
  }

  // ----- Printing ----------------------------------------------------------

  function ClockOf(seconds: nat): Clock {
    var ofDay := seconds % 86_400;
    Clock(CivilFromDays(seconds / 86_400), ofDay / 3_600, ofDay % 3_600 / 60, ofDay % 60)
  }

  function DatePart(d: Date): seq<Byte>
    requires 0 <= d.year && 0 <= d.month && 0 <= d.day
  {
    Padded(d.year, 4) + ([DASH] + (Padded(d.month, 2) + ([DASH] + Padded(d.day, 2))))
  }

  function TimePart(c: Clock): seq<Byte>
    requires 0 <= c.hour && 0 <= c.minute && 0 <= c.second
  {
    Padded(c.hour, 2) + ([COLON] + (Padded(c.minute, 2) + ([COLON] + Padded(c.second, 2))))
  }

  /** The text of an instant with the fraction digits `fraction`, if any. */
  function Layout(c: Clock, fraction: seq<Byte>): seq<Byte>
    requires ValidClock(c)
  {
    DatePart(c.date) + ([LETTER_T] + (TimePart(c) + Tail(fraction)))
  }

  function Tail(fraction: seq<Byte>): seq<Byte> {
    if fraction == [] then [LETTER_Z] else [DOT] + fraction + [LETTER_Z]
  }

  lemma DaySplits(ofDay: nat)
    requires ofDay < 86_400
    ensures ofDay / 3_600 <= 23 && ofDay % 3_600 / 60 <= 59 && ofDay % 60 <= 59
    ensures ofDay == ofDay / 3_600 * 3_600 + ofDay % 3_600 / 60 * 60 + ofDay % 60
  {
  }

  lemma {:induction false} ClockOfIsValid(seconds: nat)
    requires seconds <= U64 / NANOS
    ensures ValidClock(ClockOf(seconds)) && Seconds(ClockOf(seconds)) == seconds
  {
    hide CivilFromDays, DaysFromCivil, DaysInMonth;
    var days := seconds / 86_400;
    DaySplits(seconds % 86_400);
    assert seconds == days * 86_400 + seconds % 86_400;
    CivilFromDaysInverse(days);
    EpochIsDayZero();
    YearEnd9999();
    DaysAreMonotone(CivilFromDays(days), Date(1970, 1, 1));
    DaysAreMonotone(Date(9999, 12, 31), CivilFromDays(days));
  }

  lemma YearEnd9999()
    ensures DaysFromCivil(Date(9999, 12, 31)) == 2_932_896
    ensures Valid(Date(9999, 12, 31)) && Valid(Date(1970, 1, 1))
  {
  }

  function Format(ns: nat): seq<Byte>
    requires ns < U64
  {
    ClockOfIsValid(ns / NANOS);
    Layout(ClockOf(ns / NANOS), Padded(ns % NANOS, 9))
  }

  // ----- Parsing -----------------------------------------------------------

  datatype ParseError =
    | BadLength(len: nat)
    | BadPunctuation(pos: nat, expected: Byte, got: Byte)
    | NonDigit(pos: nat)
    | OutOfRange(field: string, value: nat)

  function Punct(s: seq<Byte>, pos: nat, expected: Byte): Result<(), ParseError>
    requires pos < |s|
  {
    if s[pos] != expected then Err(BadPunctuation(pos, expected, s[pos])) else Ok(())
  }

  /** The number in `s[from..end]`, or the first byte there that is no digit. */
  function DigitRun(s: seq<Byte>, from: nat, end: nat): (r: Result<nat, ParseError>)
    requires from <= end <= |s|
    ensures r.Ok? <==> AllDigits(s[from..end])
    ensures r.Ok? ==> r.value == DecimalValue(s[from..end])
    ensures r.Err? ==> r.error.NonDigit? && from <= r.error.pos < end
                       && !IsDigit(s[r.error.pos]) && AllDigits(s[from..r.error.pos])
    decreases end
  {
    if from == end then Ok(0)
    else
      assert s[from..end] == s[from..end - 1] + [s[end - 1]];
      assert s[from..end][..|s[from..end]| - 1] == s[from..end - 1];
      var prior :- DigitRun(s, from, end - 1);
      if !IsDigit(s[end - 1]) then Err(NonDigit(end - 1)) else Ok(10 * prior + (s[end - 1] - 48))
  }

  function InRange(field: string, value: nat, low: int, high: int): Result<(), ParseError> {
    if low <= value <= high then Ok(()) else Err(OutOfRange(field, value))
  }

  function CheckPunctuation(s: seq<Byte>): Result<(), ParseError>
    requires |s| == 20 || 22 <= |s| <= 30
  {
    var _ :- Punct(s, 4, DASH);
    var _ :- Punct(s, 7, DASH);
    var _ :- Punct(s, 10, LETTER_T);
    var _ :- Punct(s, 13, COLON);
    var _ :- Punct(s, 16, COLON);
    if |s| == 20 then Punct(s, 19, LETTER_Z)
    else
      var _ :- Punct(s, 19, DOT);
      Punct(s, |s| - 1, LETTER_Z)
  }

  function ReadClock(s: seq<Byte>): Result<Clock, ParseError>
    requires |s| >= 20
  {
    var year :- DigitRun(s, 0, 4);
    var month :- DigitRun(s, 5, 7);
    var day :- DigitRun(s, 8, 10);
    var hour :- DigitRun(s, 11, 13);
    var minute :- DigitRun(s, 14, 16);
    var second :- DigitRun(s, 17, 19);
    var _ :- InRange("year", year, 1970, 9999);
    var _ :- InRange("month", month, 1, 12);
    var _ :- InRange("day", day, 1, DaysInMonth(year, month));
    var _ :- InRange("hour", hour, 0, 23);
    var _ :- InRange("minute", minute, 0, 59);
    var _ :- InRange("second", second, 0, 59);
    Ok(Clock(Date(year, month, day), hour, minute, second))
  }

  function ReadFraction(s: seq<Byte>): Result<nat, ParseError>
    requires |s| == 20 || 22 <= |s| <= 30
  {
    if |s| == 20 then Ok(0)
    else
      var value :- DigitRun(s, 20, |s| - 1);
      Ok(value * Pow10(9 - (|s| - 21)))
  }

  /** Nanoseconds since the epoch, in exact arithmetic. */
  function Instant(c: Clock, nanos: nat): int {
    Seconds(c) * NANOS + nanos
  }

  /** The last two operations wrap at 64 bits; the others never leave the range. */
  function Parse(s: seq<Byte>): Result<nat, ParseError> {
    if !(|s| == 20 || 22 <= |s| <= 30) then Err(BadLength(|s|))
    else
      var _ :- CheckPunctuation(s);
      var clock :- ReadClock(s);
      var nanos :- ReadFraction(s);
      Ok(Instant(clock, nanos) % U64)
  }

  lemma {:induction false} DigitRunStops(s: seq<Byte>, from: nat, at: nat, end: nat)
    requires from <= at < end <= |s|
    requires AllDigits(s[from..at]) && !IsDigit(s[at])
    ensures DigitRun(s, from, end) == Err(NonDigit(at))
    decreases end
  {
    if at < end - 1 {
      DigitRunStops(s, from, at, end - 1);
    }
  }

  method ParseDigits(bytes: seq<Byte>, from: nat, end: nat) returns (r: Result<nat, ParseError>)
    requires from <= end <= |bytes|
    ensures r == DigitRun(bytes, from, end)
  {
    var acc: nat := 0;
    for i := from to end
      invariant DigitRun(bytes, from, i) == Ok(acc)
    {
      if !IsDigit(bytes[i]) {
        DigitRunStops(bytes, from, i, end);
        return Err(NonDigit(i));
      }
      acc := acc * 10 + (bytes[i] - 48);
    }
    return Ok(acc);
  }

  method ParseClock(bytes: seq<Byte>) returns (r: Result<Clock, ParseError>)
    requires |bytes| >= 20
    ensures r == ReadClock(bytes)
  {
    hide DigitRun, DaysInMonth;
    var year :- ParseDigits(bytes, 0, 4);
    var month :- ParseDigits(bytes, 5, 7);
    var day :- ParseDigits(bytes, 8, 10);
    var hour :- ParseDigits(bytes, 11, 13);
    var minute :- ParseDigits(bytes, 14, 16);
    var second :- ParseDigits(bytes, 17, 19);
    var _ :- InRange("year", year, 1970, 9999);
    var _ :- InRange("month", month, 1, 12);
    var _ :- InRange("day", day, 1, DaysInMonth(year, month));
    var _ :- InRange("hour", hour, 0, 23);
    var _ :- InRange("minute", minute, 0, 59);
    var _ :- InRange("second", second, 0, 59);
    return Ok(Clock(Date(year, month, day), hour, minute, second));
  }

  method ParseIso8601(bytes: seq<Byte>) returns (r: Result<nat, ParseError>)
    ensures r == Parse(bytes)
  {
    hide DigitRun, DaysFromCivil, Pow10, ReadClock, CheckPunctuation;
    var len := |bytes|;
    if !(len == 20 || 22 <= len <= 30) {
      return Err(BadLength(len));
    }
    var _ :- CheckPunctuation(bytes);
    var clock :- ParseClock(bytes);
    var nanos := 0;
    if len != 20 {
      var acc :- ParseDigits(bytes, 20, len - 1);
      nanos := acc * Pow10(9 - (len - 21));
    }
    var dayIndex := DaysFromCivil(clock.date);
    var totalSeconds := dayIndex * 86_400 + clock.hour * 3_600 + clock.minute * 60 + clock.second;
    return Ok((totalSeconds * NANOS + nanos) % U64);
  }

  // ----- The accepted language ---------------------------------------------

  predicate IsText(s: seq<Byte>, c: Clock, fraction: seq<Byte>) {
    ValidClock(c) && AllDigits(fraction) && |fraction| <= 9 && s == Layout(c, fraction)
  }

  function FractionNanos(fraction: seq<Byte>): nat
    requires AllDigits(fraction) && |fraction| <= 9
  {
    DecimalValue(fraction) * Pow10(9 - |fraction|)
  }

  lemma Powers()
    ensures Pow10(2) == 100 && Pow10(4) == 10_000 && Pow10(9) == NANOS
  {
    assert Pow10(3) == 1000 && Pow10(6) == 1_000_000;
  }

  lemma DateSlots(d: Date)
    requires Valid(d) && 1970 <= d.year <= 9999
    ensures var s := DatePart(d);
            |s| == 10 && s[4] == DASH && s[7] == DASH &&
            s[0..4] == Padded(d.year, 4) && s[5..7] == Padded(d.month, 2) && s[8..10] == Padded(d.day, 2)
    ensures AllDigits(Padded(d.year, 4)) && DecimalValue(Padded(d.year, 4)) == d.year
    ensures AllDigits(Padded(d.month, 2)) && DecimalValue(Padded(d.month, 2)) == d.month
    ensures AllDigits(Padded(d.day, 2)) && DecimalValue(Padded(d.day, 2)) == d.day
  {
    hide Padded, DecimalValue, Pow10;
    Powers();
    PaddedRoundTrip(d.year, 4);
    PaddedRoundTrip(d.month, 2);
    PaddedRoundTrip(d.day, 2);
  }

  lemma TimeSlots(c: Clock)
    requires ValidClock(c)
    ensures var s := TimePart(c);
            |s| == 8 && s[2] == COLON && s[5] == COLON &&
            s[0..2] == Padded(c.hour, 2) && s[3..5] == Padded(c.minute, 2) && s[6..8] == Padded(c.second, 2)
    ensures AllDigits(Padded(c.hour, 2)) && DecimalValue(Padded(c.hour, 2)) == c.hour
    ensures AllDigits(Padded(c.minute, 2)) && DecimalValue(Padded(c.minute, 2)) == c.minute
    ensures AllDigits(Padded(c.second, 2)) && DecimalValue(Padded(c.second, 2)) == c.second
  {
    hide Padded, DecimalValue, Pow10;
    Powers();
    PaddedRoundTrip(c.hour, 2);
    PaddedRoundTrip(c.minute, 2);
    PaddedRoundTrip(c.second, 2);
  }

  lemma TailLength(fraction: seq<Byte>)
    ensures |Tail(fraction)| == if fraction == [] then 1 else 2 + |fraction|
  {
  }

  /** Where the parser looks in a laid-out text. */
  lemma LayoutSlots(c: Clock, fraction: seq<Byte>)
    requires ValidClock(c)
    ensures var s := Layout(c, fraction);
            |s| == (if fraction == [] then 20 else 21 + |fraction|) &&
            s[..10] == DatePart(c.date) && s[10] == LETTER_T && s[11..19] == TimePart(c) &&
            s[19..] == Tail(fraction)
  {
    hide DatePart, TimePart, Tail, Valid, Padded;
    DateSlots(c.date);
    TimeSlots(c);
    TailLength(fraction);
  }

  lemma ParseOfLayoutClock(c: Clock, fraction: seq<Byte>)
    requires ValidClock(c)
    ensures |Layout(c, fraction)| >= 20 && ReadClock(Layout(c, fraction)) == Ok(c)
  {
    hide Layout, DatePart, TimePart, Tail, Padded, DaysInMonth, DecimalValue;
    var s := Layout(c, fraction);
    LayoutSlots(c, fraction);
    DateSlots(c.date);
    TimeSlots(c);
    SliceOfSlice(s, 0, 10, 0, 4);
    SliceOfSlice(s, 0, 10, 5, 7);
    SliceOfSlice(s, 0, 10, 8, 10);
    SliceOfSlice(s, 11, 19, 0, 2);
    SliceOfSlice(s, 11, 19, 3, 5);
    SliceOfSlice(s, 11, 19, 6, 8);
    assert s[0..10] == s[..10];
  }

  lemma PunctuationOfLayout(c: Clock, fraction: seq<Byte>)
    requires ValidClock(c) && |fraction| <= 9
    ensures |Layout(c, fraction)| == (if fraction == [] then 20 else 21 + |fraction|)
    ensures CheckPunctuation(Layout(c, fraction)) == Ok(())
  {
    hide Layout, DatePart, TimePart, Padded, DaysInMonth, DecimalValue;
    var s := Layout(c, fraction);
    LayoutSlots(c, fraction);
    DateSlots(c.date);
    TimeSlots(c);
    assert s[4] == s[..10][4] && s[7] == s[..10][7];
    assert s[13] == s[11..19][2] && s[16] == s[11..19][5];
    assert s[19] == s[19..][0] && s[|s| - 1] == s[19..][|s| - 20];
  }

  lemma FractionSlots(c: Clock, fraction: seq<Byte>)
    requires ValidClock(c) && fraction != []
    ensures var s := Layout(c, fraction);
            |s| == 21 + |fraction| && s[20..|s| - 1] == fraction
  {
    hide Layout, ValidClock;
    var s, n := Layout(c, fraction), |fraction|;
    LayoutSlots(c, fraction);
    var tail := s[19..];
    assert tail == [DOT] + fraction + [LETTER_Z];
    assert tail[1..1 + n] == fraction;
    assert s[20..20 + n] == tail[1..1 + n];
  }

  /** Every well-formed text is accepted, with the value of what it shows. */
  lemma {:induction false} ParseOfLayout(c: Clock, fraction: seq<Byte>)
    requires ValidClock(c) && AllDigits(fraction) && |fraction| <= 9
    ensures Parse(Layout(c, fraction)) == Ok(Instant(c, FractionNanos(fraction)) % U64)
  {
    hide Layout, DatePart, TimePart, DaysInMonth, ReadClock, CheckPunctuation, Pow10, ValidClock;
    var s := Layout(c, fraction);
    ParseOfLayoutClock(c, fraction);
    PunctuationOfLayout(c, fraction);
    LayoutSlots(c, fraction);
    if fraction != [] {
      FractionSlots(c, fraction);
    } else {
      assert DecimalValue(fraction) == 0;
    }
  }

  lemma DateOfSlots(s: seq<Byte>, d: Date)
    requires |s| == 10 && s[4] == DASH && s[7] == DASH
    requires AllDigits(s[0..4]) && AllDigits(s[5..7]) && AllDigits(s[8..10])
    requires d == Date(DecimalValue(s[0..4]), DecimalValue(s[5..7]), DecimalValue(s[8..10]))
    ensures DatePart(d) == s
  {
    hide Padded, DecimalValue;
    ValueRoundTrip(s[0..4]);
    ValueRoundTrip(s[5..7]);
    ValueRoundTrip(s[8..10]);
    assert s == s[0..4] + ([s[4]] + (s[5..7] + ([s[7]] + s[8..10])));
  }

  lemma TimeOfSlots(s: seq<Byte>, c: Clock)
    requires |s| == 8 && s[2] == COLON && s[5] == COLON
    requires AllDigits(s[0..2]) && AllDigits(s[3..5]) && AllDigits(s[6..8])
    requires c.hour == DecimalValue(s[0..2]) && c.minute == DecimalValue(s[3..5]) && c.second == DecimalValue(s[6..8])
    ensures TimePart(c) == s
  {
    hide Padded, DecimalValue;
    ValueRoundTrip(s[0..2]);
    ValueRoundTrip(s[3..5]);
    ValueRoundTrip(s[6..8]);
    assert s == s[0..2] + ([s[2]] + (s[3..5] + ([s[5]] + s[6..8])));
  }

  lemma SliceOfSlice(s: seq<Byte>, from: nat, end: nat, i: nat, j: nat)
    requires from <= end <= |s| && i <= j <= end - from
    ensures s[from..end][i..j] == s[from + i..from + j]
  {
    var x, y := s[from..end][i..j], s[from + i..from + j];
    assert forall k :: 0 <= k < j - i ==> x[k] == s[from..end][i + k] == y[k];
    assert x == y;
  }

  /** What the clock reader accepts it can print back. */
  lemma {:induction false} ReadClockShows(s: seq<Byte>)
    requires |s| >= 20 && ReadClock(s).Ok?
    requires s[4] == DASH && s[7] == DASH && s[13] == COLON && s[16] == COLON
    ensures var c := ReadClock(s).value;
            ValidClock(c) && DatePart(c.date) == s[..10] && TimePart(c) == s[11..19]
  {
    hide DatePart, TimePart, DecimalValue, DigitRun, DaysInMonth;
    var c := ReadClock(s).value;
    var date, time := s[..10], s[11..19];
    SliceOfSlice(s, 0, 10, 0, 4);
    SliceOfSlice(s, 0, 10, 5, 7);
    SliceOfSlice(s, 0, 10, 8, 10);
    SliceOfSlice(s, 11, 19, 0, 2);
    SliceOfSlice(s, 11, 19, 3, 5);
    SliceOfSlice(s, 11, 19, 6, 8);
    assert s[0..10] == date;
    DateOfSlots(date, c.date);
    TimeOfSlots(time, c);
  }

  function FractionOf(s: seq<Byte>): seq<Byte>
    requires |s| == 20 || 22 <= |s| <= 30
  {
    if |s| == 20 then [] else s[20..|s| - 1]
  }

  /** Everything the parser accepts is a well-formed text, and the parser's value
      is the value of that text. */
  lemma {:induction false} ParseIsSound(s: seq<Byte>)
    requires Parse(s).Ok?
    ensures var c := ReadClock(s).value;
            IsText(s, c, FractionOf(s)) && Parse(s) == Ok(Instant(c, FractionNanos(FractionOf(s))) % U64)
  {
    hide DatePart, TimePart, DigitRun, DecimalValue, ReadClock, ValidClock, Instant, Pow10;
    var c := ReadClock(s).value;
    ReadClockShows(s);
    var tail := s[19..];
    if |s| == 20 {
      assert tail == [LETTER_Z] == Tail([]);
      assert DecimalValue([]) == 0 by { EmptyValue(); }
    } else {
      assert tail == [DOT] + FractionOf(s) + [LETTER_Z];
    }
    assert s == s[..10] + ([s[10]] + (s[11..19] + s[19..]));
  }

  lemma EmptyValue()
    ensures DecimalValue([]) == 0
  {
  }

  /** The accepted language, exactly. */
  lemma {:induction false} ParseAccepts(s: seq<Byte>)
    ensures Parse(s).Ok? <==> exists c, fraction :: IsText(s, c, fraction)
  {
    hide CheckPunctuation, ReadClock, ReadFraction, Layout, ValidClock, Instant;
    if Parse(s).Ok? {
      ParseIsSound(s);
      assert IsText(s, ReadClock(s).value, FractionOf(s));
    }
    forall c, fraction | IsText(s, c, fraction)
      ensures Parse(s).Ok?
    {
      ParseOfLayout(c, fraction);
    }
  }

  /** The punctuation the parser wants at a position of a text of length `len`. */
  function Wanted(len: nat, pos: nat): Option<Byte> {
    if pos in {4, 7} then Some(DASH)
    else if pos in {13, 16} then Some(COLON)
    else if pos == 10 then Some(LETTER_T)
    else if pos == len - 1 then Some(LETTER_Z)
    else if pos == 19 then Some(DOT)
    else None
  }

  ghost predicate Punctuated(s: seq<Byte>, end: nat) {
    forall pos :: 0 <= pos < |s| && pos < end && Wanted(|s|, pos).Some? ==> s[pos] == Wanted(|s|, pos).value
  }

  lemma PunctuationErrors(s: seq<Byte>)
    requires |s| == 20 || 22 <= |s| <= 30
    ensures match CheckPunctuation(s)
            case Ok(_) => Punctuated(s, |s|)
            case Err(e) => e.BadPunctuation? && e.pos < |s| && Wanted(|s|, e.pos) == Some(e.expected)
                           && e.got == s[e.pos] != e.expected && Punctuated(s, e.pos)
  {
  }

  /** Every digit slot before `end` holds a digit. */
  ghost predicate DigitsUpTo(s: seq<Byte>, end: nat) {
    forall pos :: 0 <= pos < |s| && pos < end && Wanted(|s|, pos).None? ==> IsDigit(s[pos])
  }

  lemma RunIsDigits(s: seq<Byte>, from: nat, end: nat)
    requires from <= end <= |s| && AllDigits(s[from..end])
    ensures forall pos :: from <= pos < end ==> IsDigit(s[pos])
  {
    forall pos | from <= pos < end
      ensures IsDigit(s[pos])
    {
      assert s[pos] == s[from..end][pos - from];
    }
  }

  /** One more run of digits, between two slots of punctuation. */
  lemma NextRun(s: seq<Byte>, from: nat, end: nat)
    requires 0 <= from < end < |s| && (from == 0 || DigitsUpTo(s, from - 1))
    requires from > 0 ==> Wanted(|s|, from - 1).Some?
    requires Wanted(|s|, end).Some? && forall pos :: from <= pos < end ==> Wanted(|s|, pos).None?
    ensures var r := DigitRun(s, from, end);
            && (r.Ok? ==> DigitsUpTo(s, end))
            && (r.Err? ==> r.error.NonDigit? && from <= r.error.pos < end && DigitsUpTo(s, r.error.pos))
            && (r.Err? ==> !IsDigit(s[r.error.pos]) && Wanted(|s|, r.error.pos).None?)
  {
    hide DigitRun;
    var r := DigitRun(s, from, end);
    RunIsDigits(s, from, if r.Ok? then end else r.error.pos);
  }

  /** The six numbers a text shows. */
  datatype Fields = Fields(year: nat, month: nat, day: nat, hour: nat, minute: nat, second: nat)

  predicate Shows(s: seq<Byte>, f: Fields)
    requires |s| >= 20
  {
    && DigitRun(s, 0, 4) == Ok(f.year) && DigitRun(s, 5, 7) == Ok(f.month) && DigitRun(s, 8, 10) == Ok(f.day)
    && DigitRun(s, 11, 13) == Ok(f.hour) && DigitRun(s, 14, 16) == Ok(f.minute) && DigitRun(s, 17, 19) == Ok(f.second)
  }

  /** How many of the fields, in order, are in their range. */
  function Sound(f: Fields): nat {
    if !(1970 <= f.year <= 9999) then 0
    else if !(1 <= f.month <= 12) then 1
    else if !(1 <= f.day <= DaysInMonth(f.year, f.month)) then 2
    else if f.hour > 23 then 3
    else if f.minute > 59 then 4
    else if f.second > 59 then 5
    else 6
  }

  function Named(f: Fields, k: nat): (string, nat) {
    if k == 0 then ("year", f.year)
    else if k == 1 then ("month", f.month)
    else if k == 2 then ("day", f.day)
    else if k == 3 then ("hour", f.hour)
    else if k == 4 then ("minute", f.minute)
    else ("second", f.second)
  }

  /** All six fields are numbers, and `field` is the first that is out of range. */
  ghost predicate FirstOutOfRange(s: seq<Byte>, field: string, value: nat)
    requires |s| >= 20
  {
    exists f :: Shows(s, f) && Sound(f) < 6 && (field, value) == Named(f, Sound(f))
  }

  /** A byte that is no digit, all of the digit slots before it being right. */
  ghost predicate FirstNonDigit(s: seq<Byte>, pos: nat) {
    pos < |s| && Wanted(|s|, pos).None? && !IsDigit(s[pos]) && DigitsUpTo(s, pos)
  }

  ghost predicate IsClockFault(s: seq<Byte>, e: ParseError)
    requires |s| >= 20
  {
    || (e.NonDigit? && e.pos < 19 && FirstNonDigit(s, e.pos))
    || (e.OutOfRange? && FirstOutOfRange(s, e.field, e.value))
  }

  lemma ClockErrors(s: seq<Byte>)
    requires |s| == 20 || 22 <= |s| <= 30
    ensures ReadClock(s).Ok? ==> DigitsUpTo(s, 19)
    ensures ReadClock(s).Err? ==> IsClockFault(s, ReadClock(s).error)
  {
    hide DigitRun, DaysInMonth, DigitsUpTo;
    NextRun(s, 0, 4);
    if DigitRun(s, 0, 4).Ok? {
      NextRun(s, 5, 7);
      if DigitRun(s, 5, 7).Ok? {
        NextRun(s, 8, 10);
        if DigitRun(s, 8, 10).Ok? {
          ClockTimeErrors(s);
        }
      }
    }
  }

  lemma ClockTimeErrors(s: seq<Byte>)
    requires |s| == 20 || 22 <= |s| <= 30
    requires DigitsUpTo(s, 10) && DigitRun(s, 0, 4).Ok? && DigitRun(s, 5, 7).Ok? && DigitRun(s, 8, 10).Ok?
    ensures ReadClock(s).Ok? ==> DigitsUpTo(s, 19)
    ensures ReadClock(s).Err? ==> IsClockFault(s, ReadClock(s).error)
  {
    hide DigitRun, DaysInMonth, DigitsUpTo;
    NextRun(s, 11, 13);
    if DigitRun(s, 11, 13).Ok? {
      NextRun(s, 14, 16);
      if DigitRun(s, 14, 16).Ok? {
        NextRun(s, 17, 19);
        if DigitRun(s, 17, 19).Ok? {
          var f := Fields(DigitRun(s, 0, 4).value, DigitRun(s, 5, 7).value, DigitRun(s, 8, 10).value,
                          DigitRun(s, 11, 13).value, DigitRun(s, 14, 16).value, DigitRun(s, 17, 19).value);
          assert Shows(s, f);
        }
      }
    }
  }

  /** A refusal tells the truth, and names the first fault in the parser's order: the
      length is not one of the shapes; or the first wrong punctuation byte; or, all of
      it being right, the first byte that is no digit where a digit belongs, in the
      fraction only when the clock is right; or, all six fields being numbers, the
      first that is no date or time. */
  lemma {:induction false} ErrorsAreTrue(s: seq<Byte>)
    requires Parse(s).Err?
    ensures match Parse(s).error
            case BadLength(len) => len == |s| && !(len == 20 || 22 <= len <= 30)
            case BadPunctuation(pos, expected, got) =>
              pos < |s| && Wanted(|s|, pos) == Some(expected) && got == s[pos] != expected && Punctuated(s, pos)
            case NonDigit(pos) =>
              FirstNonDigit(s, pos) && Punctuated(s, |s|) && (pos >= 20 ==> ReadClock(s).Ok?)
            case OutOfRange(field, value) =>
              Punctuated(s, |s|) && |s| >= 20 && FirstOutOfRange(s, field, value)
  {
    hide CheckPunctuation, Punctuated, DigitRun, ReadClock, DigitsUpTo, Shows;
    if |s| == 20 || 22 <= |s| <= 30 {
      PunctuationErrors(s);
      ClockErrors(s);
      if ReadClock(s).Ok? && |s| > 20 {
        NextRun(s, 20, |s| - 1);
      }
    }
  }

  // ----- The language and the values, byte by byte -------------------------

  function TwoDigits(s: seq<Byte>, at: nat): int
    requires at + 2 <= |s|
  {
    10 * (s[at] as int - '0' as int) + (s[at + 1] as int - '0' as int)
  }

  /** The punctuation of an accepted text, and digits everywhere else. */
  predicate HasShape(s: seq<Byte>) {
    && (|s| == 20 || 22 <= |s| <= 30)
    && s[4] == '-' as int && s[7] == '-' as int && s[10] == 'T' as int && s[13] == ':' as int && s[16] == ':' as int
    && (|s| > 20 ==> s[19] == '.' as int) && s[|s| - 1] == 'Z' as int
    && forall i :: 0 <= i < |s| - 1 && i !in {4, 7, 10, 13, 16, 19} ==> '0' as int <= s[i] <= '9' as int
  }

  /** A text is accepted exactly when it has the shape and shows a date of the calendar,
      from the year 1970 on, and a time of day without leap seconds. */
  lemma {:induction false} AcceptedByBytes(s: seq<Byte>)
    ensures Parse(s).Ok? <==>
            && HasShape(s)
            && 1970 <= 100 * TwoDigits(s, 0) + TwoDigits(s, 2) && 1 <= TwoDigits(s, 5) <= 12
            && 1 <= TwoDigits(s, 8) <= DaysInMonth(100 * TwoDigits(s, 0) + TwoDigits(s, 2), TwoDigits(s, 5))
            && TwoDigits(s, 11) <= 23 && TwoDigits(s, 14) <= 59 && TwoDigits(s, 17) <= 59
    ensures Parse(s).Ok? ==>
              ReadClock(s) == Ok(Clock(Date(100 * TwoDigits(s, 0) + TwoDigits(s, 2), TwoDigits(s, 5), TwoDigits(s, 8)),
                                       TwoDigits(s, 11), TwoDigits(s, 14), TwoDigits(s, 17)))
  {
    hide DigitRun, DecimalValue, DaysInMonth, ReadClock, CheckPunctuation, Pow10;
    if |s| == 20 || 22 <= |s| <= 30 {
      PunctuationByBytes(s);
      ClockByBytes(s);
      if |s| > 20 {
        DigitsByBytes(s, 20, |s| - 1);
      }
    }
  }

  /** And its value is what it shows, modulo 64 bits. */
  lemma ValueByBytes(s: seq<Byte>)
    requires Parse(s).Ok?
    ensures var day := DaysFromCivil(Date(100 * TwoDigits(s, 0) + TwoDigits(s, 2), TwoDigits(s, 5), TwoDigits(s, 8)));
            var seconds := day * 86_400 + TwoDigits(s, 11) * 3_600 + TwoDigits(s, 14) * 60 + TwoDigits(s, 17);
            Parse(s).value == (seconds * 1_000_000_000 + FractionNanos(FractionOf(s))) % 0x1_0000_0000_0000_0000
  {
    hide Parse, ReadClock, TwoDigits, DaysFromCivil, FractionNanos, FractionOf, Layout, DaysInMonth, IsText;
    AcceptedByBytes(s);
    ParseIsSound(s);
  }

  lemma PunctuationByBytes(s: seq<Byte>)
    requires |s| == 20 || 22 <= |s| <= 30
    ensures CheckPunctuation(s).Ok? <==>
            && s[4] == '-' as int && s[7] == '-' as int && s[10] == 'T' as int
            && s[13] == ':' as int && s[16] == ':' as int
            && (|s| > 20 ==> s[19] == '.' as int) && s[|s| - 1] == 'Z' as int
  {
  }

  lemma DigitsByBytes(s: seq<Byte>, from: nat, end: nat)
    requires from <= end <= |s|
    ensures DigitRun(s, from, end).Ok? <==> forall i :: from <= i < end ==> '0' as int <= s[i] <= '9' as int
  {
    hide DigitRun;
    var run := s[from..end];
    assert forall i :: from <= i < end ==> run[i - from] == s[i];
    assert forall i :: 0 <= i < |run| ==> run[i] == s[from + i];
  }

  lemma TwoByBytes(s: seq<Byte>, at: nat)
    requires at + 2 <= |s|
    ensures DigitRun(s, at, at + 2).Ok? <==> '0' as int <= s[at] <= '9' as int && '0' as int <= s[at + 1] <= '9' as int
    ensures DigitRun(s, at, at + 2).Ok? ==> DigitRun(s, at, at + 2) == Ok(TwoDigits(s, at))
  {
    assert DigitRun(s, at, at) == Ok(0);
    assert DigitRun(s, at, at + 1) == if IsDigit(s[at]) then Ok(s[at] - 48) else Err(NonDigit(at));
  }

  lemma FourByBytes(s: seq<Byte>)
    requires |s| >= 4
    ensures DigitRun(s, 0, 4).Ok? <==> forall i :: 0 <= i < 4 ==> '0' as int <= s[i] <= '9' as int
    ensures DigitRun(s, 0, 4).Ok? ==> DigitRun(s, 0, 4) == Ok(100 * TwoDigits(s, 0) + TwoDigits(s, 2))
  {
    TwoByBytes(s, 0);
    DigitsByBytes(s, 0, 4);
    assert DigitRun(s, 0, 4).Ok? ==> DigitRun(s, 0, 3).Ok? && DigitRun(s, 0, 2).Ok?;
  }

  lemma ClockByBytes(s: seq<Byte>)
    requires |s| >= 20
    ensures ReadClock(s).Ok? <==>
            && (forall i :: 0 <= i < 19 && i !in {4, 7, 10, 13, 16} ==> '0' as int <= s[i] <= '9' as int)
            && 1970 <= 100 * TwoDigits(s, 0) + TwoDigits(s, 2) && 1 <= TwoDigits(s, 5) <= 12
            && 1 <= TwoDigits(s, 8) <= DaysInMonth(100 * TwoDigits(s, 0) + TwoDigits(s, 2), TwoDigits(s, 5))
            && TwoDigits(s, 11) <= 23 && TwoDigits(s, 14) <= 59 && TwoDigits(s, 17) <= 59
    ensures ReadClock(s).Ok? ==>
              ReadClock(s) == Ok(Clock(Date(100 * TwoDigits(s, 0) + TwoDigits(s, 2), TwoDigits(s, 5), TwoDigits(s, 8)),
                                       TwoDigits(s, 11), TwoDigits(s, 14), TwoDigits(s, 17)))
  {
    hide DigitRun, DaysInMonth, DecimalValue, AllDigits;
    FieldsByBytes(s);
  }

  lemma FieldsByBytes(s: seq<Byte>)
    requires |s| >= 20
    ensures (forall i :: 0 <= i < 19 && i !in {4, 7, 10, 13, 16} ==> '0' as int <= s[i] <= '9' as int) <==>
            && DigitRun(s, 0, 4).Ok? && DigitRun(s, 5, 7).Ok? && DigitRun(s, 8, 10).Ok?
            && DigitRun(s, 11, 13).Ok? && DigitRun(s, 14, 16).Ok? && DigitRun(s, 17, 19).Ok?
    ensures DigitRun(s, 0, 4).Ok? ==> DigitRun(s, 0, 4).value == 100 * TwoDigits(s, 0) + TwoDigits(s, 2)
    ensures DigitRun(s, 5, 7).Ok? ==> DigitRun(s, 5, 7).value == TwoDigits(s, 5)
    ensures DigitRun(s, 8, 10).Ok? ==> DigitRun(s, 8, 10).value == TwoDigits(s, 8)
    ensures DigitRun(s, 11, 13).Ok? ==> DigitRun(s, 11, 13).value == TwoDigits(s, 11)
    ensures DigitRun(s, 14, 16).Ok? ==> DigitRun(s, 14, 16).value == TwoDigits(s, 14)
    ensures DigitRun(s, 17, 19).Ok? ==> DigitRun(s, 17, 19).value == TwoDigits(s, 17)
  {
    hide DigitRun, DecimalValue, TwoDigits, AllDigits;
    FourByBytes(s);
    TwoByBytes(s, 5);
    TwoByBytes(s, 8);
    TwoByBytes(s, 11);
    TwoByBytes(s, 14);
    TwoByBytes(s, 17);
  }

  function Ascii(text: string): seq<Byte>
    requires forall i :: 0 <= i < |text| ==> text[i] as int < 128
  {
    seq(|text|, i requires 0 <= i < |text| => text[i] as int)
  }

  /** The epoch, as it is printed. */
  lemma EpochText()
    ensures Format(0) == Ascii("1970-01-01") + (Ascii("T") + (Ascii("00:00:00") + Ascii(".000000000Z")))
  {
    hide Padded, DatePart, TimePart, Tail, Ascii, ClockOf;
    EpochClock();
    EpochDate();
    EpochTime();
  }

  lemma EpochClock()
    ensures ClockOf(0) == Clock(Date(1970, 1, 1), 0, 0, 0) && ValidClock(ClockOf(0))
  {
    hide DaysFromCivil, CivilFromDays;
    EpochIsDayZero();
    DaysFromCivilInverse(Date(1970, 1, 1));
  }

  lemma EpochDate()
    ensures DatePart(Date(1970, 1, 1)) == Ascii("1970-01-01")
  {
    hide Padded;
    SmallNumerals();
  }

  lemma EpochTime()
    ensures TimePart(Clock(Date(1970, 1, 1), 0, 0, 0)) == Ascii("00:00:00")
    ensures Tail(Padded(0, 9)) == Ascii(".000000000Z") && [LETTER_T] == Ascii("T")
  {
    hide Padded;
    SmallNumerals();
  }

  lemma SmallNumerals()
    ensures Padded(1970, 4) == Ascii("1970") && Padded(1, 2) == Ascii("01") && Padded(0, 2) == Ascii("00")
    ensures Padded(0, 9) == Ascii("000000000")
  {
    hide Padded;
    ZeroIsZeros(2);
    ZeroIsZeros(9);
    PaddedStep(1, 2);
    PaddedStep(1, 1);
    ZeroIsZeros(1);
    PaddedStep(1970, 4);
    PaddedStep(197, 3);
    PaddedStep(19, 2);
    PaddedStep(1, 1);
    assert Padded(19, 2) == [49, 57] && Padded(197, 3) == [49, 57, 55] && Padded(1970, 4) == [49, 57, 55, 48];
    assert Ascii("1970") == [49, 57, 55, 48] && Ascii("01") == [48, 49] && Ascii("00") == Zeros(2);
    assert Ascii("000000000") == Zeros(9);
  }

  lemma PaddedStep(n: nat, width: nat)
    requires width >= 1
    ensures Padded(n, width) == if n < 10 && width == 1 then [48 + n] else Padded(n / 10, width - 1) + [48 + n % 10]
  {
  }

  lemma {:induction false} ZeroIsZeros(width: nat)
    requires width >= 1
    ensures Padded(0, width) == Zeros(width)
  {
    if width > 1 {
      ZeroIsZeros(width - 1);
    }
  }

  lemma PowStep(n: nat)
    requires n > 0
    ensures Pow10(n) == 10 * Pow10(n - 1)
  {
  }

  function Zeros(n: nat): seq<Byte> {
    seq(n, i => '0' as int)
  }

  lemma {:induction false} ZerosBehind(s: seq<Byte>, n: nat)
    requires AllDigits(s)
    ensures AllDigits(s + Zeros(n)) && DecimalValue(s + Zeros(n)) == DecimalValue(s) * Pow10(n)
  {
    hide AllDigits, DecimalValue, Pow10;
    if n == 0 {
      assert s + Zeros(0) == s;
      PowZero();
    } else {
      ZerosBehind(s, n - 1);
      var front := s + Zeros(n - 1);
      assert s + Zeros(n) == front + [48];
      ZeroBehind(front);
      PowStep(n);
      var d, p := DecimalValue(s), Pow10(n - 1);
      assert d * (10 * p) == 10 * (d * p);
    }
  }

  lemma ZeroBehind(s: seq<Byte>)
    requires AllDigits(s)
    ensures AllDigits(s + [48]) && DecimalValue(s + [48]) == 10 * DecimalValue(s)
  {
    assert (s + [48])[..|s|] == s;
  }

  /** A short fraction means the same as when zeros fill it up to nanoseconds. */
  lemma {:induction false} ShortFractions(c: Clock, fraction: seq<Byte>)
    requires ValidClock(c) && AllDigits(fraction) && |fraction| <= 9
    ensures Parse(Layout(c, fraction)) == Parse(Layout(c, fraction + Zeros(9 - |fraction|)))
  {
    hide Parse, Layout, ValidClock, Seconds, Pow10, DecimalValue;
    ZerosBehind(fraction, 9 - |fraction|);
    PowZero();
    ParseOfLayout(c, fraction);
    ParseOfLayout(c, fraction + Zeros(9 - |fraction|));
  }

  // ----- Round trips and order ---------------------------------------------

  /** Printing any 64-bit instant and parsing the text gives the instant back. */
  lemma {:induction false} ParseOfFormat(ns: nat)
    requires ns < U64
    ensures Parse(Format(ns)) == Ok(ns)
  {
    hide Parse, Layout, ValidClock, Seconds, ClockOf, Padded, Pow10, DecimalValue;
    Powers();
    ClockOfIsValid(ns / NANOS);
    var fraction := Padded(ns % NANOS, 9);
    PaddedRoundTrip(ns % NANOS, 9);
    ParseOfLayout(ClockOf(ns / NANOS), fraction);
    PowZero();
    assert Instant(ClockOf(ns / NANOS), FractionNanos(fraction)) == ns;
  }

  lemma PowZero()
    ensures Pow10(0) == 1
  {
  }

  predicate ClockBefore(a: Clock, b: Clock) {
    || Before(a.date, b.date)
    || (a.date == b.date && a.hour < b.hour)
    || (a.date == b.date && a.hour == b.hour && a.minute < b.minute)
    || (a.date == b.date && a.hour == b.hour && a.minute == b.minute && a.second < b.second)
  }

  lemma {:induction false} SecondsOrder(a: Clock, b: Clock)
    requires ValidClock(a) && ValidClock(b)
    ensures ClockBefore(a, b) <==> Seconds(a) < Seconds(b)
    ensures a == b <==> Seconds(a) == Seconds(b)
    ensures Seconds(a) >= 0
  {
    hide DaysFromCivil, DaysInMonth;
    DaysAreMonotone(a.date, b.date);
    DaysAreMonotone(b.date, a.date);
    EpochIsDayZero();
    YearEnd9999();
    DaysAreMonotone(a.date, Date(1970, 1, 1));
  }

  lemma DateTextOrder(a: Date, b: Date)
    requires Valid(a) && Valid(b) && 1970 <= a.year <= 9999 && 1970 <= b.year <= 9999
    ensures LexLess(DatePart(a), DatePart(b)) <==> Before(a, b)
    ensures DatePart(a) == DatePart(b) <==> a == b
    ensures |DatePart(a)| == |DatePart(b)| == 10
  {
    hide Padded, Pow10, LexLess, DecimalValue;
    Powers();
    DateSlots(a);
    DateSlots(b);
    PaddedOrder(a.year, b.year, 4);
    PaddedOrder(a.month, b.month, 2);
    PaddedOrder(a.day, b.day, 2);
    LexLessAppend(Padded(a.year, 4), Padded(b.year, 4),
                  [DASH] + (Padded(a.month, 2) + ([DASH] + Padded(a.day, 2))),
                  [DASH] + (Padded(b.month, 2) + ([DASH] + Padded(b.day, 2))));
    PairTextOrder(DASH, a.month, b.month, DASH, a.day, b.day);
  }

  /** Two numerals of two digits, each behind the same punctuation. */
  lemma PairTextOrder(p: Byte, a1: nat, b1: nat, q: Byte, a2: nat, b2: nat)
    requires a1 < 100 && b1 < 100 && a2 < 100 && b2 < 100
    ensures LexLess([p] + (Padded(a1, 2) + ([q] + Padded(a2, 2))), [p] + (Padded(b1, 2) + ([q] + Padded(b2, 2))))
            <==> a1 < b1 || (a1 == b1 && a2 < b2)
  {
    hide Padded, Pow10, DecimalValue;
    Powers();
    PaddedRoundTrip(a1, 2);
    PaddedRoundTrip(b1, 2);
    PaddedOrder(a1, b1, 2);
    PaddedOrder(a2, b2, 2);
    LexLessAppend([p], [p], Padded(a1, 2) + ([q] + Padded(a2, 2)), Padded(b1, 2) + ([q] + Padded(b2, 2)));
    LexLessAppend(Padded(a1, 2), Padded(b1, 2), [q] + Padded(a2, 2), [q] + Padded(b2, 2));
    LexLessAppend([q], [q], Padded(a2, 2), Padded(b2, 2));
  }

  lemma TimeTextOrder(a: Clock, b: Clock)
    requires ValidClock(a) && ValidClock(b)
    ensures LexLess(TimePart(a), TimePart(b)) <==>
            || a.hour < b.hour
            || (a.hour == b.hour && (a.minute < b.minute || (a.minute == b.minute && a.second < b.second)))
    ensures TimePart(a) == TimePart(b) <==> a.hour == b.hour && a.minute == b.minute && a.second == b.second
    ensures |TimePart(a)| == |TimePart(b)| == 8
  {
    hide Padded, Pow10, LexLess, DecimalValue, Valid;
    Powers();
    TimeSlots(a);
    TimeSlots(b);
    PaddedOrder(a.hour, b.hour, 2);
    PaddedOrder(a.minute, b.minute, 2);
    PaddedOrder(a.second, b.second, 2);
    LexLessAppend(Padded(a.hour, 2), Padded(b.hour, 2),
                  [COLON] + (Padded(a.minute, 2) + ([COLON] + Padded(a.second, 2))),
                  [COLON] + (Padded(b.minute, 2) + ([COLON] + Padded(b.second, 2))));
    PairTextOrder(COLON, a.minute, b.minute, COLON, a.second, b.second);
  }

  /** Texts with nine fraction digits are ordered as the instants they show,
      beyond the 64-bit range too. */
  lemma {:induction false} LayoutOrder(a: Clock, m: nat, b: Clock, n: nat)
    requires ValidClock(a) && ValidClock(b) && m < NANOS && n < NANOS
    ensures LexLess(Layout(a, Padded(m, 9)), Layout(b, Padded(n, 9))) <==> Instant(a, m) < Instant(b, n)
    ensures Layout(a, Padded(m, 9)) == Layout(b, Padded(n, 9)) <==> Instant(a, m) == Instant(b, n)
  {
    hide Padded, Pow10, DecimalValue, DaysInMonth, DatePart, TimePart, Seconds, Tail;
    Powers();
    var x, y := Padded(m, 9), Padded(n, 9);
    PaddedRoundTrip(m, 9);
    PaddedRoundTrip(n, 9);
    DateTextOrder(a.date, b.date);
    TimeTextOrder(a, b);
    TailTextOrder(m, n);
    SecondsOrder(a, b);
    LexLessAppend(TimePart(a), TimePart(b), Tail(x), Tail(y));
    LexLessAppend([LETTER_T], [LETTER_T], TimePart(a) + Tail(x), TimePart(b) + Tail(y));
    LexLessAppend(DatePart(a.date), DatePart(b.date),
                  [LETTER_T] + (TimePart(a) + Tail(x)), [LETTER_T] + (TimePart(b) + Tail(y)));
    LayoutSlots(a, x);
    LayoutSlots(b, y);
  }

  lemma TailTextOrder(m: nat, n: nat)
    requires m < NANOS && n < NANOS
    ensures LexLess(Tail(Padded(m, 9)), Tail(Padded(n, 9))) <==> m < n
    ensures Tail(Padded(m, 9)) == Tail(Padded(n, 9)) <==> m == n
  {
    hide Padded, Pow10, DecimalValue;
    Powers();
    var x, y := Padded(m, 9), Padded(n, 9);
    PaddedRoundTrip(m, 9);
    PaddedRoundTrip(n, 9);
    PaddedOrder(m, n, 9);
    assert Tail(x) == [DOT] + (x + [LETTER_Z]) && Tail(y) == [DOT] + (y + [LETTER_Z]);
    LexLessAppend([DOT], [DOT], x + [LETTER_Z], y + [LETTER_Z]);
    LexLessAppend(x, y, [LETTER_Z], [LETTER_Z]);
    assert Tail(x)[1..10] == x && Tail(y)[1..10] == y;
  }

  /** Printed order is chronological order. */
  lemma {:induction false} FormatOrder(a: nat, b: nat)
    requires a < U64 && b < U64
    ensures LexLess(Format(a), Format(b)) <==> a < b
    ensures Format(a) == Format(b) <==> a == b
  {
    hide Layout, ValidClock, ClockOf, Padded, Seconds, LexLess;
    ClockOfIsValid(a / NANOS);
    ClockOfIsValid(b / NANOS);
    LayoutOrder(ClockOf(a / NANOS), a % NANOS, ClockOf(b / NANOS), b % NANOS);
  }

  lemma TimesIsMonotone(a: nat, b: nat, k: nat)
    requires a < b && k > 0
    ensures a * k < b * k
  {
  }

  lemma FractionFits(fraction: seq<Byte>)
    requires AllDigits(fraction) && |fraction| <= 9
    ensures FractionNanos(fraction) < NANOS
  {
    hide Pow10, DecimalValue, Padded;
    Powers();
    if fraction == [] {
      EmptyValue();
    } else {
      var k := 9 - |fraction|;
      ValueRoundTrip(fraction);
      PowSplit(|fraction|, k);
      TimesIsMonotone(DecimalValue(fraction), Pow10(|fraction|), Pow10(k));
    }
  }

  lemma {:induction false} PowSplit(m: nat, n: nat)
    ensures Pow10(m) * Pow10(n) == Pow10(m + n)
  {
    if m > 0 {
      PowSplit(m - 1, n);
      assert Pow10(m) * Pow10(n) == 10 * (Pow10(m - 1) * Pow10(n));
    }
  }

  /** The latest instant 64 bits can hold, 2554-07-21T23:34:33.709551615Z. */
  const LATEST := Clock(Date(2554, 7, 21), 23, 34, 33)
  const LATEST_NANOS := 709_551_615

  lemma LatestIsLast()
    ensures ValidClock(LATEST) && Instant(LATEST, LATEST_NANOS) == U64 - 1
  {
    assert DaysFromCivil(LATEST.date) == 213_503;
  }

  /** For every accepted text the only step of the computation that can leave 64
      bits is the last one, and it does so exactly for the texts that show an
      instant later than `LATEST`. */
  lemma {:induction false} ParseOverflows(s: seq<Byte>)
    requires Parse(s).Ok?
    ensures var c, nanos := ReadClock(s).value, FractionNanos(FractionOf(s));
            && 0 <= DaysFromCivil(c.date) && 0 <= Seconds(c) <= 253_402_300_799 < U64 && nanos < NANOS
            && (Parse(s).value == Instant(c, nanos) <==>
                !(ClockBefore(LATEST, c) || (LATEST == c && LATEST_NANOS < nanos)))
  {
    hide DatePart, TimePart, DigitRun, DecimalValue, ReadClock, CheckPunctuation;
    hide DaysFromCivil, IsLeapYear, Pow10, Layout;
    var c, nanos := ReadClock(s).value, FractionNanos(FractionOf(s));
    ParseIsSound(s);
    FractionFits(FractionOf(s));
    LatestIsLast();
    SecondsOrder(LATEST, c);
    YearEnd9999();
    EpochIsDayZero();
    DaysAreMonotone(Date(9999, 12, 31), c.date);
    DaysAreMonotone(c.date, Date(1970, 1, 1));
  }

  /** The text 2554-07-21T23:34:33.709551616Z, one nanosecond later, is accepted and
      read as the epoch. */
  lemma FirstTextThatWraps()
    ensures Parse(Layout(LATEST, Padded(LATEST_NANOS + 1, 9))) == Ok(0)
  {
    hide Parse, Layout, Padded, Pow10, DecimalValue, Seconds;
    var fraction := Padded(LATEST_NANOS + 1, 9);
    LatestIsLast();
    Powers();
    PowZero();
    PaddedRoundTrip(LATEST_NANOS + 1, 9);
    ParseOfLayout(LATEST, fraction);
    assert FractionNanos(fraction) == LATEST_NANOS + 1;
  }

  /** An accepted text with nine fraction digits is reprinted as it was read if
      and only if it does not sort after the latest 64-bit instant. */
  lemma {:induction false} FormatOfParse(s: seq<Byte>)
    requires |s| == 30 && Parse(s).Ok?
    ensures Parse(s).value < U64
    ensures Format(Parse(s).value) == s <==> !LexLess(Format(U64 - 1), s)
    ensures Format(U64 - 1) == Layout(LATEST, Padded(LATEST_NANOS, 9))
  {
    hide ReadClock, CheckPunctuation, Padded, Pow10, DecimalValue, Layout, ValidClock;
    hide ClockOf, LexLess, Seconds, AllDigits, ClockBefore;
    var c, fraction := ReadClock(s).value, FractionOf(s);
    ParseIsSound(s);
    FractionFits(fraction);
    ValueRoundTrip(fraction);
    PowZero();
    var nanos := DecimalValue(fraction);
    assert FractionNanos(fraction) == nanos;
    assert s == Layout(c, Padded(nanos, 9));
    var v := Parse(s).value;
    ParseValueRange(s);
    ClockOfIsValid(v / NANOS);
    LayoutOrder(ClockOf(v / NANOS), v % NANOS, c, nanos);
    LatestIsLast();
    ClockOfIsValid((U64 - 1) / NANOS);
    LayoutOrder(ClockOf((U64 - 1) / NANOS), (U64 - 1) % NANOS, LATEST, LATEST_NANOS);
    LayoutOrder(LATEST, LATEST_NANOS, c, nanos);
  }

  lemma {:induction false} ParseValueRange(s: seq<Byte>)
    requires Parse(s).Ok?
    ensures var c, nanos := ReadClock(s).value, FractionNanos(FractionOf(s));
            Instant(c, nanos) >= 0 && Parse(s).value == Instant(c, nanos) % U64
  {
    hide Parse, ReadClock, Layout, Pow10, DecimalValue, ValidClock, Seconds, FractionOf;
    ParseIsSound(s);
    ParseOverflows(s);
  }
}
