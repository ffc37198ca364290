/** The printed dedupe keys, and that printing loses nothing. */
module Keys {
  import opened Ledger
  import opened Text

  // ---------------------------------------------------------------- calendar dates

  datatype Date = Date(year: nat, month: nat, day: nat)

  predicate IsLeap(y: nat) { y % 4 == 0 && (y % 100 != 0 || y % 400 == 0) }

  function DaysInYear(y: nat): nat { if IsLeap(y) then 366 else 365 }

  function DaysInMonth(y: nat, m: nat): nat {
    if m == 2 then (if IsLeap(y) then 29 else 28)
    else if m == 4 || m == 6 || m == 9 || m == 11 then 30 else 31
  }

  function FromMonth(n: nat, y: nat, m: nat): (date: Date)
    requires 1 <= m <= 12
    ensures m <= date.month <= 12 && date.year == y
    decreases 12 - m
  {
    if m == 12 || n <= DaysInMonth(y, m) then Date(y, m, n) else FromMonth(n - DaysInMonth(y, m), y, m + 1)
  }

  function FromYear(n: nat, y: nat): (date: Date)
    ensures date.year >= y && 1 <= date.month <= 12
    decreases n
  {
    if n <= DaysInYear(y) then FromMonth(n, y, 1) else FromYear(n - DaysInYear(y), y + 1)
  }

  /** The date of a day number, day 1 being the first of January of year 1. */
  function Civil(day: nat): Date { FromYear(day, 1) }

  function MonthsUpTo(y: nat, m: nat, upto: nat): nat
    requires m <= upto
    decreases upto - m
  {
    if m == upto then 0 else DaysInMonth(y, m) + MonthsUpTo(y, m + 1, upto)
  }

  function YearsUpTo(y: nat, upto: nat): nat
    requires y <= upto
    decreases upto - y
  {
    if y == upto then 0 else DaysInYear(y) + YearsUpTo(y + 1, upto)
  }

  function Ordinal(date: Date): nat
    requires 1 <= date.year && 1 <= date.month <= 12
  {
    YearsUpTo(1, date.year) + MonthsUpTo(date.year, 1, date.month) + date.day
  }

  lemma {:induction false} MonthBack(n: nat, y: nat, m: nat)
    requires 1 <= m <= 12
    ensures var date := FromMonth(n, y, m); n == MonthsUpTo(y, m, date.month) + date.day
    decreases 12 - m
  {
    if !(m == 12 || n <= DaysInMonth(y, m)) { MonthBack(n - DaysInMonth(y, m), y, m + 1); }
  }

  lemma {:induction false} YearBack(n: nat, y: nat)
    ensures var date := FromYear(n, y);
            n == YearsUpTo(y, date.year) + MonthsUpTo(date.year, 1, date.month) + date.day
    decreases n
  {
    if n <= DaysInYear(y) { MonthBack(n, y, 1); } else { YearBack(n - DaysInYear(y), y + 1); }
  }

  /** A day's number can be worked out from its date, so no two days share one. */
  lemma OrdinalOfCivil(day: nat)
    ensures Ordinal(Civil(day)) == day
  {
    YearBack(day, 1);
  }

  /** The days of a month, and the years that have a day more. */
  predicate LeapYear(y: nat) { if y % 100 == 0 then y % 400 == 0 else y % 4 == 0 }

  function LastDay(y: nat, m: nat): nat {
    if m == 2 then (if LeapYear(y) then 29 else 28) else if m in {4, 6, 9, 11} then 30 else 31
  }

  lemma {:induction false} MonthNext(n: nat, y: nat, m: nat)
    requires 1 <= m <= 12 && 1 <= n < MonthsUpTo(y, m, 13)
    ensures var d, e := FromMonth(n, y, m), FromMonth(n + 1, y, m);
            && 1 <= d.day <= LastDay(y, d.month)
            && e == (if d.day < LastDay(y, d.month) then Date(y, d.month, d.day + 1) else Date(y, d.month + 1, 1))
            && (d.day == LastDay(y, d.month) ==> d.month < 12)
    decreases 12 - m
  {
    assert DaysInMonth(y, m) == LastDay(y, m);
    assert MonthsUpTo(y, m, 13) == LastDay(y, m) + MonthsUpTo(y, m + 1, 13);
    if m == 12 { assert MonthsUpTo(y, 13, 13) == 0; }
    else if n > DaysInMonth(y, m) { MonthNext(n - DaysInMonth(y, m), y, m + 1); }
  }

  lemma {:induction false} MonthLast(y: nat, m: nat)
    requires 1 <= m <= 12
    ensures FromMonth(MonthsUpTo(y, m, 13), y, m) == Date(y, 12, 31)
    decreases 12 - m
  {
    assert MonthsUpTo(y, m, 13) == DaysInMonth(y, m) + MonthsUpTo(y, m + 1, 13);
    if m == 12 { assert MonthsUpTo(y, 13, 13) == 0; } else {
      assert MonthsUpTo(y, m + 1, 13) == DaysInMonth(y, m + 1) + MonthsUpTo(y, m + 2, 13);
      MonthLast(y, m + 1);
    }
  }

  lemma {:induction false} YearNext(n: nat, y: nat)
    requires n >= 1
    ensures FromYear(n + 1, y) == DayAfter(FromYear(n, y))
    decreases n
  {
    YearLength(y);
    if n < DaysInYear(y) {
      MonthNext(n, y, 1);
    } else if n == DaysInYear(y) {
      MonthLast(y, 1);
      assert FromYear(1, y + 1) == Date(y + 1, 1, 1);
    } else {
      YearNext(n - DaysInYear(y), y + 1);
    }
  }

  function DayAfter(date: Date): Date {
    if date.day < LastDay(date.year, date.month) then Date(date.year, date.month, date.day + 1)
    else if date.month < 12 then Date(date.year, date.month + 1, 1) else Date(date.year + 1, 1, 1)
  }

  /** Dates follow the calendar: day 1 is the first of January of year 1, and each is the day after the one before. */
  lemma CivilFollows(day: nat)
    requires day >= 1
    ensures Civil(1) == Date(1, 1, 1) && Civil(day + 1) == DayAfter(Civil(day))
  {
    YearNext(day, 1);
  }

  lemma {:induction false} MonthDay(n: nat, y: nat, m: nat)
    requires 1 <= m <= 12 && n <= MonthsUpTo(y, m, 13)
    ensures FromMonth(n, y, m).day <= 31
    decreases 12 - m
  {
    if m == 12 { assert MonthsUpTo(y, 13, 13) == 0; }
    else if n > DaysInMonth(y, m) { MonthDay(n - DaysInMonth(y, m), y, m + 1); }
  }

  lemma {:induction false} YearDay(n: nat, y: nat)
    ensures FromYear(n, y).day <= 31
    decreases n
  {
    if n <= DaysInYear(y) {
      assert MonthsUpTo(y, 1, 13) == DaysInYear(y) by { YearLength(y); }
      MonthDay(n, y, 1);
    } else { YearDay(n - DaysInYear(y), y + 1); }
  }

  lemma YearLength(y: nat)
    ensures MonthsUpTo(y, 1, 13) == DaysInYear(y)
  {
    assert MonthsUpTo(y, 10, 13) == 92;
    assert MonthsUpTo(y, 7, 10) == 92 && MonthsUpTo(y, 4, 7) == 91;
    calc {
      MonthsUpTo(y, 1, 13);
      31 + DaysInMonth(y, 2) + 31 + MonthsUpTo(y, 4, 13);
      { assert MonthsUpTo(y, 4, 13) == 30 + 31 + 30 + MonthsUpTo(y, 7, 13); }
      31 + DaysInMonth(y, 2) + 31 + 91 + MonthsUpTo(y, 7, 13);
      { assert MonthsUpTo(y, 7, 13) == 31 + 31 + 30 + MonthsUpTo(y, 10, 13); }
      31 + DaysInMonth(y, 2) + 31 + 91 + 92 + 92;
    }
  }

  // ---------------------------------------------------------------- printing

  /** `date.isoformat()`. */
  function Iso(day: nat): (s: string)
    ensures |s| == 10
  {
    var date := Civil(day);
    Padded(4, date.year) + "-" + Padded(2, date.month) + "-" + Padded(2, date.day)
  }

  function IntText(t: int): (s: string)
    ensures s != [] && (s[0] == '-' <==> t < 0)
  {
    if t < 0 then "-" + Decimal(-t) else Decimal(t)
  }

  function Print(key: Key): string
    requires Printable(key)
  {
    match key
    case Threshold(t) => "t" + IntText(t)
    case ExpiredDay(day) => "expired:" + Iso(day)
    case ExpiredSlot(day, hour) => "expired:" + Iso(day) + "T" + Padded(2, hour)
  }

  /** The dates Python's `date` can hold, and hours of a day. */
  predicate PrintableDay(day: int) { 1 <= day && Civil(day).year <= 9999 }

  predicate Printable(key: Key) {
    match key
    case Threshold(_) => true
    case ExpiredDay(day) => PrintableDay(day)
    case ExpiredSlot(day, hour) => PrintableDay(day) && 0 <= hour < 24
  }

  lemma IntTextInjective(a: int, b: int)
    requires IntText(a) == IntText(b)
    ensures a == b
  {
    DecimalReads(if a < 0 then -a else a);
    DecimalReads(if b < 0 then -b else b);
    if a < 0 {
      assert Decimal(-a) == IntText(a)[1..] == IntText(b)[1..] == Decimal(-b);
    }
  }

  /** The printed date is read back field by field. */
  lemma IsoReads(day: nat)
    requires PrintableDay(day)
    ensures var s := Iso(day);
            AllDigits(s[..4]) && AllDigits(s[5..7]) && AllDigits(s[8..])
            && Civil(day) == Date(Value(s[..4]), Value(s[5..7]), Value(s[8..]))
  {
    var date, s := Civil(day), Iso(day);
    assert Pow10(2) == 100 && Pow10(4) == 10000 by { assert Pow10(1) == 10; assert Pow10(3) == 1000; }
    YearDay(day, 1);
    assert s[..4] == Padded(4, date.year) && s[5..7] == Padded(2, date.month) && s[8..] == Padded(2, date.day);
    PaddedReads(4, date.year);
    PaddedReads(2, date.month);
    PaddedReads(2, date.day);
  }

  lemma IsoInjective(a: nat, b: nat)
    requires PrintableDay(a) && PrintableDay(b) && Iso(a) == Iso(b)
    ensures a == b
  {
    IsoReads(a);
    IsoReads(b);
    OrdinalOfCivil(a);
    OrdinalOfCivil(b);
  }

  /** The column as it is stored. */
  lemma PrintLooks(t: nat, day: int, hour: int)
    requires PrintableDay(day) && 0 <= hour < 24
    ensures Print(Threshold(t)) == "t" + Decimal(t) && Print(Threshold(-(t + 1))) == "t-" + Decimal(t + 1)
    ensures Print(ExpiredDay(day)) == "expired:" + Iso(day)
    ensures Print(ExpiredSlot(day, hour)) == "expired:" + Iso(day) + "T" + Padded(2, hour)
    ensures Iso(day)[4] == Iso(day)[7] == '-'
  {
    assert "t" + ("-" + Decimal(t + 1)) == "t-" + Decimal(t + 1);
  }

  /** The three printers are injective and never meet: the printed column identifies the key. */
  lemma PrintInjective(a: Key, b: Key)
    requires Printable(a) && Printable(b) && Print(a) == Print(b)
    ensures a == b
  {
    if a.Threshold? || b.Threshold? {
      assert Print(a)[0] == (if a.Threshold? then 't' else 'e');
      assert Print(b)[0] == (if b.Threshold? then 't' else 'e');
      assert Print(a)[1..] == IntText(a.t) && Print(b)[1..] == IntText(b.t);
      IntTextInjective(a.t, b.t);
    } else {
      ExpiredReads(a);
      ExpiredReads(b);
      IsoInjective(a.day, b.day);
    }
  }

  /** The date, and the hour if there is one, are read back from the printed key. */
  lemma ExpiredReads(key: Key)
    requires Printable(key) && !key.Threshold?
    ensures |Print(key)| == (if key.ExpiredDay? then 18 else 21) && Print(key)[8..18] == Iso(key.day)
    ensures key.ExpiredSlot? ==> AllDigits(Print(key)[19..]) && Value(Print(key)[19..]) == key.hour
  {
    assert Print(key)[8..18] == Iso(key.day);
    if key.ExpiredSlot? {
      assert Print(key)[19..] == Padded(2, key.hour);
      assert Pow10(2) == 100 by { assert Pow10(1) == 10; }
      PaddedReads(2, key.hour);
    }
  }

  /** `expired_hour_key`: two moments share a key exactly when they share the date and the slot of the day. */
  lemma SlotKeys(day: int, hour: nat, day': int, hour': nat, everyHours: int)
    requires PrintableDay(day) && PrintableDay(day') && hour < 24 && hour' < 24
    ensures var interval := if everyHours < 1 then 1 else everyHours;
            var key, key' := ExpiredSlot(day, Bucket(hour, everyHours)), ExpiredSlot(day', Bucket(hour', everyHours));
            && Printable(key) && Printable(key')
            && (Print(key) == Print(key') <==> day == day' && hour / interval == hour' / interval)
  {
    var interval := if everyHours < 1 then 1 else everyHours;
    BucketStart(hour, everyHours);
    BucketStart(hour', everyHours);
    Scaled(interval, hour / interval, hour' / interval);
    var key, key' := ExpiredSlot(day, Bucket(hour, everyHours)), ExpiredSlot(day', Bucket(hour', everyHours));
    if Print(key) == Print(key') { PrintInjective(key, key'); }
  }

  lemma BucketStart(hour: nat, everyHours: int)
    ensures var interval := if everyHours < 1 then 1 else everyHours;
            Bucket(hour, everyHours) == interval * (hour / interval) && 0 <= Bucket(hour, everyHours) <= hour
  {
    var interval := if everyHours < 1 then 1 else everyHours;
    assert hour == interval * (hour / interval) + hour % interval;
    assert interval * (hour / interval) >= 0;
  }

  lemma Scaled(k: int, a: int, b: int)
    requires k >= 1
    ensures k * a == k * b <==> a == b
  {
    if a < b { assert k * (b - a) > 0; } else if b < a { assert k * (a - b) > 0; }
  }
}
