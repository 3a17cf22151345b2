/**
  Timestamps as both databases store them: ISO 8601 text in UTC, compared as text. The
  fraction is left out when it is zero (section 5.6 of RFC 3339 makes it optional), and then
  the order of the text is not the order of time (section 5.1 of RFC 3339 requires the same
  fraction digits everywhere for that).
 */
module Timestamps {
  import opened Text

  datatype Instant = Instant(year: nat, month: nat, day: nat, hour: nat, minute: nat, second: nat, micro: nat)

  predicate Leap(year: nat) { year % 4 == 0 && (year % 100 != 0 || year % 400 == 0) }

  function DaysIn(year: nat, month: nat): nat {
    if month == 2 then (if Leap(year) then 29 else 28) else if month in {4, 6, 9, 11} then 30 else 31
  }

  predicate Valid(t: Instant) {
    && 1 <= t.year <= 9999 && 1 <= t.month <= 12 && 1 <= t.day <= DaysIn(t.year, t.month)
    && t.hour < 24 && t.minute < 60 && t.second < 60 && t.micro < 1_000_000
  }

  // ----- Text -----

  function Power10(n: nat): nat { if n == 0 then 1 else 10 * Power10(n - 1) }

  /** A number with leading zeros. */
  function Pad(n: nat, width: nat): (s: string)
    ensures |s| == width
  {
    if width == 0 then "" else Pad(n / 10, width - 1) + [(n % 10 + '0' as int) as char]
  }

  function DateText(t: Instant): string { Pad(t.year, 4) + "-" + (Pad(t.month, 2) + "-" + (Pad(t.day, 2) + "T")) }

  function TimeText(t: Instant): string { Pad(t.hour, 2) + ":" + (Pad(t.minute, 2) + ":" + Pad(t.second, 2)) }

  function FractionText(micro: nat): string { if micro == 0 then "" else "." + Pad(micro, 6) }

  function IsoText(t: Instant): string { DateText(t) + (TimeText(t) + (FractionText(t.micro) + "Z")) }

  // ----- Time -----

  function DaysBeforeYear(year: nat): nat
    requires year >= 1
  {
    if year == 1 then 0 else DaysBeforeYear(year - 1) + (if Leap(year - 1) then 366 else 365)
  }

  function DaysBeforeMonth(year: nat, month: nat): nat
    requires month >= 1
  {
    if month == 1 then 0 else DaysBeforeMonth(year, month - 1) + DaysIn(year, month - 1)
  }

  function Days(t: Instant): nat
    requires Valid(t)
  {
    DaysBeforeYear(t.year) + DaysBeforeMonth(t.year, t.month) + (t.day - 1)
  }

  /** Microseconds since the first of January of year one. */
  function Micros(t: Instant): nat
    requires Valid(t)
  {
    (((Days(t) * 24 + t.hour) * 60 + t.minute) * 60 + t.second) * 1_000_000 + t.micro
  }

  function Seconds(t: Instant): nat
    requires Valid(t)
  {
    ((Days(t) * 24 + t.hour) * 60 + t.minute) * 60 + t.second
  }

  // ----- Numbers with leading zeros are ordered as text -----

  lemma {:induction false} PadOrder(a: nat, b: nat, width: nat)
    requires a < Power10(width) && b < Power10(width)
    ensures Less(Pad(a, width), Pad(b, width)) <==> a < b
    ensures Pad(a, width) == Pad(b, width) <==> a == b
  {
    if width == 0 {
    } else {
      PadOrder(a / 10, b / 10, width - 1);
      var x, y := [(a % 10 + '0' as int) as char], [(b % 10 + '0' as int) as char];
      LessByParts(Pad(a / 10, width - 1), x, Pad(b / 10, width - 1), y);
      assert x[1..] == "" && y[1..] == "";
    }
  }

  /** Fields in order: the first decides, then the rest. */
  lemma FieldOrder(a: nat, b: nat, width: nat, sep: string, s: string, t: string)
    requires a < Power10(width) && b < Power10(width)
    ensures Less(Pad(a, width) + sep + s, Pad(b, width) + sep + t) <==> a < b || (a == b && Less(s, t))
    ensures Pad(a, width) + sep + s == Pad(b, width) + sep + t <==> a == b && s == t
  {
    PadOrder(a, b, width);
    assert Pad(a, width) + sep + s == Pad(a, width) + (sep + s);
    assert Pad(b, width) + sep + t == Pad(b, width) + (sep + t);
    LessByParts(Pad(a, width), sep + s, Pad(b, width), sep + t);
    LessByParts(sep, s, sep, t);
    LessIsStrict(sep);
  }

  predicate DateBefore(a: Instant, b: Instant) {
    a.year < b.year || (a.year == b.year && (a.month < b.month || (a.month == b.month && a.day < b.day)))
  }

  predicate SameDate(a: Instant, b: Instant) { a.year == b.year && a.month == b.month && a.day == b.day }

  predicate ClockBefore(a: Instant, b: Instant) {
    a.hour < b.hour || (a.hour == b.hour && (a.minute < b.minute || (a.minute == b.minute && a.second < b.second)))
  }

  predicate SameClock(a: Instant, b: Instant) { a.hour == b.hour && a.minute == b.minute && a.second == b.second }

  lemma Powers()
    ensures Power10(2) == 100 && Power10(4) == 10_000 && Power10(6) == 1_000_000
  {
    assert Power10(1) == 10 && Power10(2) == 100 && Power10(3) == 1000 && Power10(4) == 10_000 && Power10(5) == 100_000;
  }

  lemma DateOrder(a: Instant, b: Instant)
    requires Valid(a) && Valid(b)
    ensures Less(DateText(a), DateText(b)) <==> DateBefore(a, b)
    ensures DateText(a) == DateText(b) <==> SameDate(a, b)
  {
    Powers();
    FieldOrder(a.day, b.day, 2, "T", "", "");
    assert Pad(a.day, 2) + "T" + "" == Pad(a.day, 2) + "T" && Pad(b.day, 2) + "T" + "" == Pad(b.day, 2) + "T";
    FieldOrder(a.month, b.month, 2, "-", Pad(a.day, 2) + "T", Pad(b.day, 2) + "T");
    FieldOrder(a.year, b.year, 4, "-", Pad(a.month, 2) + "-" + (Pad(a.day, 2) + "T"), Pad(b.month, 2) + "-"
        + (Pad(b.day, 2) + "T"));
  }

  lemma ClockOrder(a: Instant, b: Instant)
    requires Valid(a) && Valid(b)
    ensures Less(TimeText(a), TimeText(b)) <==> ClockBefore(a, b)
    ensures TimeText(a) == TimeText(b) <==> SameClock(a, b)
  {
    Powers();
    PadOrder(a.second, b.second, 2);
    FieldOrder(a.minute, b.minute, 2, ":", Pad(a.second, 2), Pad(b.second, 2));
    FieldOrder(a.hour, b.hour, 2, ":", Pad(a.minute, 2) + ":" + Pad(a.second, 2), Pad(b.minute, 2) + ":"
        + Pad(b.second, 2));
  }

  /** A printed fraction sorts before a left-out one. */
  lemma FractionOrder(a: nat, b: nat)
    requires a < 1_000_000 && b < 1_000_000
    ensures Less(FractionText(a) + "Z", FractionText(b) + "Z") <==> a != 0 && (b == 0 || a < b)
  {
    Powers();
    if a != 0 && b != 0 {
      PadOrder(a, b, 6);
      assert FractionText(a) + "Z" == "." + (Pad(a, 6) + "Z") && FractionText(b) + "Z" == "." + (Pad(b, 6) + "Z");
      LessByParts(".", Pad(a, 6) + "Z", ".", Pad(b, 6) + "Z");
      LessByParts(Pad(a, 6), "Z", Pad(b, 6), "Z");
      LessIsStrict("Z");
      LessIsStrict(".");
    } else if a == 0 && b == 0 {
      LessIsStrict("" + "Z");
    } else {
      assert "" + "Z" == "Z";
    }
  }

  lemma TextOrder(a: Instant, b: Instant)
    requires Valid(a) && Valid(b)
    ensures Less(IsoText(a), IsoText(b)) <==>
              || DateBefore(a, b)
              || (SameDate(a, b) && ClockBefore(a, b))
              || (SameDate(a, b) && SameClock(a, b) && a.micro != 0 && (b.micro == 0 || a.micro < b.micro))
  {
    DateOrder(a, b);
    ClockOrder(a, b);
    FractionOrder(a.micro, b.micro);
    var s, t := FractionText(a.micro) + "Z", FractionText(b.micro) + "Z";
    LessByParts(TimeText(a), s, TimeText(b), t);
    LessByParts(DateText(a), TimeText(a) + s, DateText(b), TimeText(b) + t);
  }

  // ----- The calendar is ordered as its fields -----

  lemma {:induction false} YearsGrow(a: nat, b: nat)
    requires 1 <= a < b
    ensures DaysBeforeYear(a) + (if Leap(a) then 366 else 365) <= DaysBeforeYear(b)
  {
    if a < b - 1 { YearsGrow(a, b - 1); }
  }

  lemma {:induction false} MonthsGrow(year: nat, a: nat, b: nat)
    requires 1 <= a < b
    ensures DaysBeforeMonth(year, a) + DaysIn(year, a) <= DaysBeforeMonth(year, b)
  {
    if a < b - 1 { MonthsGrow(year, a, b - 1); }
  }

  lemma YearLength(year: nat)
    ensures DaysBeforeMonth(year, 13) == if Leap(year) then 366 else 365
  {
    assert DaysBeforeMonth(year, 2) == 31;
    assert DaysBeforeMonth(year, 3) == 31 + DaysIn(year, 2);
    assert DaysBeforeMonth(year, 5) == DaysBeforeMonth(year, 3) + 61;
    assert DaysBeforeMonth(year, 7) == DaysBeforeMonth(year, 5) + 61;
    assert DaysBeforeMonth(year, 9) == DaysBeforeMonth(year, 7) + 62;
    assert DaysBeforeMonth(year, 11) == DaysBeforeMonth(year, 9) + 61;
  }

  lemma EarlierDate(a: Instant, b: Instant)
    requires Valid(a) && Valid(b) && DateBefore(a, b)
    ensures Days(a) < Days(b)
  {
    if a.year < b.year {
      YearsGrow(a.year, b.year);
      YearLength(a.year);
      MonthsGrow(a.year, a.month, 13);
    } else if a.month < b.month {
      MonthsGrow(a.year, a.month, b.month);
    }
  }

  lemma DaysOrder(a: Instant, b: Instant)
    requires Valid(a) && Valid(b)
    ensures Days(a) < Days(b) <==> DateBefore(a, b)
    ensures Days(a) == Days(b) <==> SameDate(a, b)
  {
    if DateBefore(a, b) { EarlierDate(a, b); } else if DateBefore(b, a) { EarlierDate(b, a); }
  }

  lemma SecondsOrder(a: Instant, b: Instant)
    requires Valid(a) && Valid(b)
    ensures Seconds(a) < Seconds(b) <==> DateBefore(a, b) || (SameDate(a, b) && ClockBefore(a, b))
    ensures Seconds(a) == Seconds(b) <==> SameDate(a, b) && SameClock(a, b)
  {
    DaysOrder(a, b);
  }

  // ----- Text against time -----

  /** The text order is the order of time, except between two times of the same second of which
      exactly one falls on the whole second; there it is the reverse. */
  lemma TextOrderDisagreesIff(a: Instant, b: Instant)
    requires Valid(a) && Valid(b)
    ensures Less(IsoText(a), IsoText(b)) != (Micros(a) < Micros(b)) <==>
              Seconds(a) == Seconds(b) && (a.micro == 0) != (b.micro == 0)
  {
    TextOrder(a, b);
    SecondsOrder(a, b);
    SecondsOrder(b, a);
    assert Micros(a) == Seconds(a) * 1_000_000 + a.micro && Micros(b) == Seconds(b) * 1_000_000 + b.micro;
  }

  lemma SameTextIff(a: Instant, b: Instant)
    requires Valid(a) && Valid(b)
    ensures IsoText(a) == IsoText(b) <==> a == b
  {
    if IsoText(a) == IsoText(b) {
      LessIsStrict(IsoText(a));
      TextOrder(a, b);
      TextOrder(b, a);
    }
  }

  /** The filter both databases use: the stored text is at or before the cutoff's. */
  predicate AtOrBefore(stored: Instant, cutoff: Instant) {
    IsoText(stored) == IsoText(cutoff) || Less(IsoText(stored), IsoText(cutoff))
  }

  /** Lease and staleness filters are right to within a second: what they select had passed less
      than a second after the cutoff, and all that had passed a second before it is selected. */
  lemma FiltersAreRightToTheSecond(stored: Instant, cutoff: Instant)
    requires Valid(stored) && Valid(cutoff)
    ensures AtOrBefore(stored, cutoff) ==> Micros(stored) < Micros(cutoff) + 1_000_000
    ensures Micros(stored) + 1_000_000 <= Micros(cutoff) ==> AtOrBefore(stored, cutoff)
  {
    TextOrderDisagreesIff(stored, cutoff);
    SameTextIff(stored, cutoff);
  }

  /** And exactly right when both or neither fall on a whole second. */
  lemma FiltersAreExactIff(stored: Instant, cutoff: Instant)
    requires Valid(stored) && Valid(cutoff)
    ensures (AtOrBefore(stored, cutoff) <==> Micros(stored) <= Micros(cutoff)) <==>
              Seconds(stored) != Seconds(cutoff) || (stored.micro == 0) == (cutoff.micro == 0)
  {
    TextOrderDisagreesIff(stored, cutoff);
    SameTextIff(stored, cutoff);
    SecondsOrder(stored, cutoff);
    assert Micros(stored) == Seconds(stored) * 1_000_000 + stored.micro;
    assert Micros(cutoff) == Seconds(cutoff) * 1_000_000 + cutoff.micro;
  }

  const SECOND := 1_000_000

  /** The same filter on microseconds. */
  predicate AtOrBeforeAsText(stored: int, cutoff: int) {
    || stored / SECOND < cutoff / SECOND
    || (stored / SECOND == cutoff / SECOND
        && (stored == cutoff || (stored % SECOND != 0 && (cutoff % SECOND == 0 || stored < cutoff))))
  }

  lemma MicrosParts(t: Instant)
    requires Valid(t)
    ensures Micros(t) / SECOND == Seconds(t) && Micros(t) % SECOND == t.micro
  {
    PartsOf(Seconds(t), t.micro);
  }

  lemma PartsOf(seconds: nat, micro: nat)
    requires micro < SECOND
    ensures (seconds * SECOND + micro) / SECOND == seconds && (seconds * SECOND + micro) % SECOND == micro
  {
  }

  lemma AtOrBeforeOnFields(stored: Instant, cutoff: Instant)
    requires Valid(stored) && Valid(cutoff)
    ensures AtOrBefore(stored, cutoff) <==>
              || Seconds(stored) < Seconds(cutoff)
              || (Seconds(stored) == Seconds(cutoff)
                  && (stored.micro == cutoff.micro
                      || (stored.micro != 0 && (cutoff.micro == 0 || stored.micro < cutoff.micro))))
  {
    TextOrder(stored, cutoff);
    SameTextIff(stored, cutoff);
    SecondsOrder(stored, cutoff);
  }

  lemma AtOrBeforeOnMicros(stored: Instant, cutoff: Instant)
    requires Valid(stored) && Valid(cutoff)
    ensures AtOrBefore(stored, cutoff) <==> AtOrBeforeAsText(Micros(stored), Micros(cutoff))
  {
    AtOrBeforeOnFields(stored, cutoff);
    MicrosParts(stored);
    MicrosParts(cutoff);
  }

  // ----- The calendar and the format, against what is known of them -----

  /** Days before a year: 365 a year, and a leap day every fourth, not every hundredth, but every
      four-hundredth. */
  lemma {:induction false} DaysClosedForm(year: nat)
    requires year >= 1
    ensures DaysBeforeYear(year) == 365 * (year - 1) + (year - 1) / 4 - (year - 1) / 100 + (year - 1) / 400
  {
    if year > 1 {
      DaysClosedForm(year - 1);
      LeapStep(year - 1);
    }
  }

  lemma FourthStep(n: nat)
    requires n >= 1
    ensures n / 4 - (n - 1) / 4 == if n % 4 == 0 then 1 else 0
  {
  }

  lemma HundredthStep(n: nat)
    requires n >= 1
    ensures n / 100 - (n - 1) / 100 == if n % 100 == 0 then 1 else 0
  {
  }

  lemma FourHundredthStep(n: nat)
    requires n >= 1
    ensures n / 400 - (n - 1) / 400 == if n % 400 == 0 then 1 else 0
  {
  }

  lemma MultipleIs(q: nat)
    ensures 100 * q % 4 == 0 && 400 * q % 100 == 0
  {
    assert 100 * q == 4 * (25 * q) && 400 * q == 100 * (4 * q);
  }

  lemma Multiples(n: nat)
    ensures n % 100 == 0 ==> n % 4 == 0
    ensures n % 400 == 0 ==> n % 100 == 0
  {
    MultipleIs(n / 100);
    MultipleIs(n / 400);
  }

  lemma LeapStep(year: nat)
    requires year >= 1
    ensures year / 4 - year / 100 + year / 400 - ((year - 1) / 4 - (year - 1) / 100 + (year - 1) / 400)
            == if Leap(year) then 1 else 0
  {
    FourthStep(year);
    HundredthStep(year);
    FourHundredthStep(year);
    Multiples(year);
  }

  /** Where the fields and the marks between them stand. */
  lemma IsoLayout(t: Instant)
    requires Valid(t)
    ensures var s := IsoText(t);
            && |s| == (if t.micro == 0 then 20 else 27)
            && s[4] == '-' && s[7] == '-' && s[10] == 'T' && s[13] == ':' && s[16] == ':' && s[|s| - 1] == 'Z'
            && s[..4] == Pad(t.year, 4) && s[5..7] == Pad(t.month, 2) && s[8..10] == Pad(t.day, 2)
            && s[11..13] == Pad(t.hour, 2) && s[14..16] == Pad(t.minute, 2) && s[17..19] == Pad(t.second, 2)
            && (t.micro != 0 ==> s[19] == '.' && s[20..26] == Pad(t.micro, 6))
  {
  }

}
