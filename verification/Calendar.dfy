/**
 UTC instants, their calendar fields, the two fixed text forms, and weekly windows.
 An instant counts microseconds from 0001-01-01T00:00:00Z, the first datetime Python can hold; that day is a Monday.
 */
module Calendar {
  import opened Orders

  datatype Option<+T> = None | Some(value: T)

  type Instant = nat

  // The divisors are written as numerals throughout: 86_400_000_000 microseconds a day, 604_800_000_000 a week.

  function DayOf(t: Instant): nat { t / 86_400_000_000 }

  function TimeOfDay(t: Instant): nat { t % 86_400_000_000 }

  function Midnight(day: nat): Instant { day * 86_400_000_000 }

  // Days in the years 1 to 9999, so datetime.max is the microsecond before this midnight.
  const LAST_DAY: nat := 3_652_059

  // The day number of 1970-01-01.
  const UNIX_DAY: nat := 719_162

  // ---------------------------------------------------------------- calendar fields

  datatype Civil = Civil(year: nat, month: nat, day: nat, hour: nat, minute: nat, second: nat, micro: nat)

  predicate IsLeap(year: nat) { year % 4 == 0 && (year % 100 != 0 || year % 400 == 0) }

  function DaysInMonth(year: nat, month: nat): nat {
    if month == 2 then (if IsLeap(year) then 29 else 28)
    else if month in {4, 6, 9, 11} then 30
    else 31
  }

  function DaysBeforeYear(year: nat): nat
    requires year >= 1
  {
    (year - 1) * 365 + (year - 1) / 4 - (year - 1) / 100 + (year - 1) / 400
  }

  function DaysBeforeMonth(year: nat, month: nat): nat {
    if month <= 1 then 0 else DaysBeforeMonth(year, month - 1) + DaysInMonth(year, month - 1)
  }

  predicate ValidCivil(c: Civil) {
    && 1 <= c.year && 1 <= c.month <= 12 && 1 <= c.day <= DaysInMonth(c.year, c.month)
    && c.hour < 24 && c.minute < 60 && c.second < 60 && c.micro < 1_000_000
  }

  function DayNumber(c: Civil): nat
    requires ValidCivil(c)
  {
    DaysBeforeYear(c.year) + DaysBeforeMonth(c.year, c.month) + c.day - 1
  }

  function ToInstant(c: Civil): Instant
    requires ValidCivil(c)
  {
    Midnight(DayNumber(c)) + ((c.hour * 60 + c.minute) * 60 + c.second) * 1_000_000 + c.micro
  }

  lemma Multiples(n: nat, k: nat)
    requires n >= 1 && k in {4, 100, 400}
    ensures n / k == (n - 1) / k + (if n % k == 0 then 1 else 0)
  {
  }

  lemma YearLength(year: nat)
    requires year >= 1
    ensures DaysBeforeYear(year + 1) == DaysBeforeYear(year) + (if IsLeap(year) then 366 else 365)
    ensures DaysBeforeMonth(year, 13) == if IsLeap(year) then 366 else 365
  {
    LeapDays(year);
    MonthLengths(year);
  }

  lemma LeapDays(year: nat)
    requires year >= 1
    ensures DaysBeforeYear(year + 1) == DaysBeforeYear(year) + (if IsLeap(year) then 366 else 365)
  {
    Multiples(year, 4);
    Multiples(year, 100);
    Multiples(year, 400);
    Centuries(year);
  }

  lemma Centuries(year: nat)
    ensures year % 100 == 0 ==> year % 4 == 0
    ensures year % 400 == 0 ==> year % 100 == 0
  {
    if year % 100 == 0 { assert year == 4 * (25 * (year / 100)); }
    if year % 400 == 0 { assert year == 100 * (4 * (year / 400)); }
  }

  lemma MonthLengths(year: nat)
    ensures DaysBeforeMonth(year, 13) == 337 + DaysInMonth(year, 2)
  {
    HalfYear(year);
    assert DaysBeforeMonth(year, 9) == DaysBeforeMonth(year, 7) + 62;
    assert DaysBeforeMonth(year, 11) == DaysBeforeMonth(year, 9) + 61;
    assert DaysBeforeMonth(year, 13) == DaysBeforeMonth(year, 11) + 61;
  }

  lemma HalfYear(year: nat)
    ensures DaysBeforeMonth(year, 7) == 153 + DaysInMonth(year, 2)
  {
    assert DaysBeforeMonth(year, 2) == DaysBeforeMonth(year, 1) + DaysInMonth(year, 1);
    assert DaysBeforeMonth(year, 3) == DaysBeforeMonth(year, 2) + DaysInMonth(year, 2);
    assert DaysBeforeMonth(year, 5) == DaysBeforeMonth(year, 3) + 61;
  }

  lemma {:induction false} YearsAscend(a: nat, b: nat)
    requires 1 <= a <= b
    ensures DaysBeforeYear(a) <= DaysBeforeYear(b)
    decreases b - a
  {
    if a < b { YearLength(a); YearsAscend(a + 1, b); }
  }

  lemma {:induction false} MonthsAscend(year: nat, a: nat, b: nat)
    requires 1 <= a <= b
    ensures DaysBeforeMonth(year, a) <= DaysBeforeMonth(year, b)
    decreases b - a
  {
    if a < b { MonthsAscend(year, a + 1, b); }
  }

  function YearFrom(days: nat, year: nat): (r: nat)
    requires year >= 1 && DaysBeforeYear(year) <= days
    ensures r >= 1 && DaysBeforeYear(r) <= days < DaysBeforeYear(r + 1)
    decreases days - DaysBeforeYear(year)
  {
    YearLength(year);
    if days < DaysBeforeYear(year + 1) then year else YearFrom(days, year + 1)
  }

  function MonthFrom(year: nat, days: nat, month: nat): (r: nat)
    requires 1 <= month <= 12 && DaysBeforeMonth(year, month) <= days < DaysBeforeMonth(year, 13)
    ensures 1 <= r <= 12 && DaysBeforeMonth(year, r) <= days < DaysBeforeMonth(year, r + 1)
    decreases 12 - month
  {
    if days < DaysBeforeMonth(year, month + 1) then month else MonthFrom(year, days, month + 1)
  }

  lemma ClockFields(rest: nat)
    requires rest < 86_400_000_000
    ensures var seconds := rest / 1_000_000;
      && seconds / 3600 < 24 && seconds / 60 % 60 < 60 && seconds % 60 < 60
      && ((seconds / 3600 * 60 + seconds / 60 % 60) * 60 + seconds % 60) * 1_000_000 + rest % 1_000_000 == rest
  {
    var seconds := rest / 1_000_000;
    assert seconds / 60 == seconds / 3600 * 60 + seconds / 60 % 60;
  }

  /** The calendar fields of an instant. */
  function FromInstant(t: Instant): (c: Civil)
    ensures ValidCivil(c) && ToInstant(c) == t
  {
    var days, rest := DayOf(t), TimeOfDay(t);
    var year := YearFrom(days, 1);
    YearLength(year);
    var month := MonthFrom(year, days - DaysBeforeYear(year), 1);
    var seconds := rest / 1_000_000;
    ClockFields(rest);
    Civil(year, month, days - DaysBeforeYear(year) - DaysBeforeMonth(year, month) + 1,
          seconds / 3600, seconds / 60 % 60, seconds % 60, rest % 1_000_000)
  }

  function Fields(c: Civil): seq<nat> { [c.year, c.month, c.day, c.hour, c.minute, c.second, c.micro] }

  ghost predicate LexLessAt(a: seq<nat>, b: seq<nat>, i: nat) {
    |a| == |b| && i < |a| && a[..i] == b[..i] && a[i] < b[i]
  }

  lemma DayNumberOrder(a: Civil, b: Civil)
    requires ValidCivil(a) && ValidCivil(b)
    requires a.year < b.year || (a.year == b.year && (a.month < b.month || (a.month == b.month && a.day < b.day)))
    ensures DayNumber(a) < DayNumber(b)
  {
    hide IsLeap, DaysBeforeYear;
    if a.year < b.year {
      YearLength(a.year);
      YearsAscend(a.year + 1, b.year);
      MonthsAscend(a.year, a.month + 1, 13);
    } else if a.month < b.month {
      MonthsAscend(a.year, a.month + 1, b.month);
    }
  }

  /** Comparing fields from the year down is comparing instants. */
  lemma FieldOrder(a: Civil, b: Civil) returns (i: nat)
    requires ValidCivil(a) && ValidCivil(b) && ToInstant(a) < ToInstant(b)
    ensures LexLessAt(Fields(a), Fields(b), i)
  {
    if (a.year, a.month, a.day) == (b.year, b.month, b.day) {
      i := if a.hour != b.hour then 3 else if a.minute != b.minute then 4 else if a.second != b.second then 5 else 6;
    } else {
      i := if a.year != b.year then 0 else if a.month != b.month then 1 else 2;
      if !(Fields(a)[i] < Fields(b)[i]) { DayNumberOrder(b, a); }
    }
  }

  // ---------------------------------------------------------------- fixed-width text

  function Digit(n: nat): char requires n < 10 { ('0' as int + n) as char }

  predicate IsDigit(c: char) { '0' <= c <= '9' }

  function DigitValue(c: char): nat requires IsDigit(c) { c as int - '0' as int }

  function Pow10(w: nat): (p: nat)
    ensures p >= 1
  {
    if w == 0 then 1 else 10 * Pow10(w - 1)
  }

  /** The last `width` decimal digits of `n`, zero-filled. */
  function Pad(n: nat, width: nat): (s: string)
    ensures |s| == width
    ensures forall c | c in s :: IsDigit(c)
  {
    if width == 0 then "" else Pad(n / 10, width - 1) + [Digit(n % 10)]
  }

  /** `n` in decimal without leading zeros. */
  function Decimal(n: nat): (s: string)
    ensures s != []
    ensures forall c | c in s :: IsDigit(c)
  {
    if n < 10 then [Digit(n)] else Decimal(n / 10) + [Digit(n % 10)]
  }

  function NumberOf(s: string): nat
    requires forall c | c in s :: IsDigit(c)
  {
    if s == [] then 0 else 10 * NumberOf(s[..|s| - 1]) + DigitValue(s[|s| - 1])
  }

  lemma {:induction false} PadValue(n: nat, width: nat)
    requires n < Pow10(width)
    ensures NumberOf(Pad(n, width)) == n
  {
    hide Decimal;
    if width > 0 {
      PadValue(n / 10, width - 1);
      assert Pad(n, width)[..width - 1] == Pad(n / 10, width - 1);
    }
  }

  lemma {:induction false} DecimalValue(n: nat)
    ensures NumberOf(Decimal(n)) == n
  {
    if n >= 10 {
      DecimalValue(n / 10);
      assert Decimal(n)[..|Decimal(n)| - 1] == Decimal(n / 10);
    } else {
      assert Decimal(n)[..0] == [];
      assert NumberOf(Decimal(n)) == 10 * NumberOf(Decimal(n)[..0]) + n;
    }
  }

  /** Each value zero-filled to its width and followed by its separator. */
  function Layout(values: seq<nat>, widths: seq<nat>, separators: string): string
    requires |values| == |widths| == |separators|
  {
    if values == [] then "" else
      Pad(values[0], widths[0]) + [separators[0]] + Layout(values[1..], widths[1..], separators[1..])
  }

  /** The values in a text of exactly that layout. */
  function ReadLayout(text: string, widths: seq<nat>, separators: string): Option<seq<nat>>
    requires |widths| == |separators|
    decreases |widths|
  {
    if widths == [] then (if text == [] then Some([]) else None) else
      var w := widths[0];
      if |text| <= w || text[w] != separators[0] || (exists c | c in text[..w] :: !IsDigit(c)) then None else
        match ReadLayout(text[w + 1..], widths[1..], separators[1..])
        case None => None
        case Some(rest) => Some([NumberOf(text[..w])] + rest)
  }

  ghost predicate Fits(values: seq<nat>, widths: seq<nat>) {
    |values| == |widths| && forall i | 0 <= i < |values| :: values[i] < Pow10(widths[i])
  }

  lemma {:induction false} LayoutReads(values: seq<nat>, widths: seq<nat>, separators: string)
    requires Fits(values, widths) && |separators| == |widths|
    ensures ReadLayout(Layout(values, widths, separators), widths, separators) == Some(values)
  {
    if values == [] {
      assert widths == [] && Layout(values, widths, separators) == "";
    } else {
      var field, text := Pad(values[0], widths[0]), Layout(values, widths, separators);
      PadValue(values[0], widths[0]);
      LayoutReads(values[1..], widths[1..], separators[1..]);
      assert text[..widths[0]] == field;
      assert text[widths[0] + 1..] == Layout(values[1..], widths[1..], separators[1..]);
      assert [values[0]] + values[1..] == values;
    }
  }

  lemma {:induction false} CommonPrefix(p: string, x: string, y: string)
    ensures TextLe(p + x, p + y) <==> TextLe(x, y)
  {
    if p == [] {
      assert p + x == x && p + y == y;
    } else {
      assert (p + x)[1..] == p[1..] + x && (p + y)[1..] == p[1..] + y;
      CommonPrefix(p[1..], x, y);
    }
  }

  lemma {:induction false} PrefixDecides(a: string, b: string, x: string, y: string)
    requires |a| == |b| && a != b && TextLe(a, b)
    ensures TextLe(a + x, b + y) && a + x != b + y
  {
    assert (a + x)[..|a|] == a && (b + y)[..|b|] == b;
    assert (a + x)[1..] == a[1..] + x && (b + y)[1..] == b[1..] + y;
    if a[0] == b[0] {
      assert a == [a[0]] + a[1..] && b == [b[0]] + b[1..];
      PrefixDecides(a[1..], b[1..], x, y);
    }
  }

  lemma {:induction false} PadOrder(m: nat, n: nat, width: nat)
    requires m < n < Pow10(width)
    ensures TextLe(Pad(m, width), Pad(n, width)) && Pad(m, width) != Pad(n, width)
  {
    PadValue(m, width);
    PadValue(n, width);
    if m / 10 == n / 10 {
      CommonPrefix(Pad(m / 10, width - 1), [Digit(m % 10)], [Digit(n % 10)]);
    } else {
      PadOrder(m / 10, n / 10, width - 1);
      PrefixDecides(Pad(m / 10, width - 1), Pad(n / 10, width - 1), [Digit(m % 10)], [Digit(n % 10)]);
    }
  }

  lemma {:induction false} LayoutOrder(a: seq<nat>, b: seq<nat>, widths: seq<nat>, separators: string, i: nat)
    requires Fits(a, widths) && Fits(b, widths) && |separators| == |widths| && LexLessAt(a, b, i)
    ensures TextLe(Layout(a, widths, separators), Layout(b, widths, separators))
  {
    var x := [separators[0]] + Layout(a[1..], widths[1..], separators[1..]);
    var y := [separators[0]] + Layout(b[1..], widths[1..], separators[1..]);
    var p, q := Pad(a[0], widths[0]), Pad(b[0], widths[0]);
    assert Layout(a, widths, separators) == p + x && Layout(b, widths, separators) == q + y;
    if i == 0 {
      PadOrder(a[0], b[0], widths[0]);
      PrefixDecides(p, q, x, y);
    } else {
      assert a[0] == a[..i][0] == b[..i][0] == b[0];
      assert a[1..][..i - 1] == a[..i][1..] == b[..i][1..] == b[1..][..i - 1];
      LayoutOrder(a[1..], b[1..], widths[1..], separators[1..], i - 1);
      CommonPrefix([separators[0]], Layout(a[1..], widths[1..], separators[1..]),
        Layout(b[1..], widths[1..], separators[1..]));
      CommonPrefix(p, x, y);
    }
  }

  // ---------------------------------------------------------------- the two timestamp texts

  const WIDTHS: seq<nat> := [4, 2, 2, 2, 2, 2, 6]
  const SEPARATORS: string := "--T::.Z"

  /** isoformat(timespec="microseconds") with Z for the offset; the year always has four digits. */
  function IsoText(t: Instant): string { Layout(Fields(FromInstant(t)), WIDTHS, SEPARATORS) }

  // Whether the platform's strftime zero-fills %Y. It has no value here, so every result covers both kinds of platform.
  const ZERO_FILLS: bool

  function YearText(year: nat): string { if ZERO_FILLS then Pad(year, 4) else Decimal(year) }

  /** The years strftime writes with four digits. */
  predicate FourDigits(t: Instant) { ZERO_FILLS || FromInstant(t).year >= 1000 }

  /** strftime("%Y-%m-%dT%H:%M:%S.%fZ") */
  function StoredText(t: Instant): string {
    var c := FromInstant(t);
    YearText(c.year) + ['-'] + Layout(Fields(c)[1..], WIDTHS[1..], SEPARATORS[1..])
  }

  /** The instant in a text of the fixed layout with valid fields. */
  function ParseText(text: string): Option<Instant> {
    match ReadLayout(text, WIDTHS, SEPARATORS)
    case None => None
    case Some(v) =>
      if |v| != 7 then None else
        var c := Civil(v[0], v[1], v[2], v[3], v[4], v[5], v[6]);
        if ValidCivil(c) then Some(ToInstant(c)) else None
  }

  predicate Representable(t: Instant) { t < Midnight(LAST_DAY) }

  lemma YearBound(t: Instant)
    ensures Representable(t) <==> FromInstant(t).year <= 9999
  {
    var c := FromInstant(t);
    assert DaysBeforeYear(10000) == LAST_DAY;
    YearLength(c.year);
    MonthsAscend(c.year, c.month + 1, 13);
    if c.year <= 9999 { YearsAscend(c.year + 1, 10000); } else { YearsAscend(10000, c.year); }
  }

  lemma FieldsFit(t: Instant)
    requires Representable(t)
    ensures Fits(Fields(FromInstant(t)), WIDTHS)
  {
    YearBound(t);
    assert Pow10(2) == 100 && Pow10(4) == 100 * Pow10(2) && Pow10(6) == 100 * Pow10(4);
  }

  /** Every datetime survives the cursor's timestamp text. */
  lemma IsoRoundTrip(t: Instant)
    requires Representable(t)
    ensures ParseText(IsoText(t)) == Some(t)
  {
    FieldsFit(t);
    LayoutReads(Fields(FromInstant(t)), WIDTHS, SEPARATORS);
  }

  lemma IsoOrderStrict(a: Instant, b: Instant)
    requires Representable(a) && Representable(b) && a < b
    ensures TextLe(IsoText(a), IsoText(b)) && IsoText(a) != IsoText(b)
  {
    FieldsFit(a);
    FieldsFit(b);
    var i := FieldOrder(FromInstant(a), FromInstant(b));
    LayoutOrder(Fields(FromInstant(a)), Fields(FromInstant(b)), WIDTHS, SEPARATORS, i);
    IsoRoundTrip(a);
    IsoRoundTrip(b);
  }

  lemma {:induction false} DecimalIsPad(n: nat, width: nat)
    requires width >= 1 && n < Pow10(width)
    ensures |Decimal(n)| <= width
    ensures (width == 1 || Pow10(width - 1) <= n) ==> Decimal(n) == Pad(n, width)
  {
    if width == 1 {
      assert Pad(n / 10, 0) == "";
    } else if n >= 10 {
      DecimalIsPad(n / 10, width - 1);
    }
  }

  lemma YearDigits(year: nat)
    requires year <= 9999
    ensures year >= 1000 ==> Decimal(year) == Pad(year, 4)
    ensures year < 1000 ==> |Decimal(year)| <= 3
  {
    assert Pow10(2) == 100 && Pow10(3) == 1000 && Pow10(4) == 10000;
    DecimalIsPad(year, if year < 1000 then 3 else 4);
  }

  lemma StoredIsIso(t: Instant)
    requires Representable(t) && FourDigits(t)
    ensures StoredText(t) == IsoText(t)
  {
    YearBound(t);
    YearDigits(FromInstant(t).year);
  }

  /** The stored text round-trips exactly for the years that strftime writes with four digits: all, or those from 1000
      on. */
  lemma StoredRoundTrip(t: Instant)
    requires Representable(t)
    ensures ParseText(StoredText(t)) == Some(t) <==> FourDigits(t)
  {
    var year := FromInstant(t).year;
    YearBound(t);
    YearDigits(year);
    if FourDigits(t) {
      StoredIsIso(t);
      IsoRoundTrip(t);
    } else {
      var text := StoredText(t);
      assert text[|Decimal(year)|] == '-';
      assert text[..4][|Decimal(year)|] == '-' && !IsDigit('-');
    }
  }

  lemma IsoOrder(a: Instant, b: Instant)
    requires Representable(a) && Representable(b)
    ensures TextLe(IsoText(a), IsoText(b)) <==> a <= b
  {
    TextTotal(IsoText(a), IsoText(b));
    if a < b { IsoOrderStrict(a, b); } else if b < a { IsoOrderStrict(b, a); }
  }

  /** For those SQLite's comparison of the stored texts is comparison in time. */
  lemma StoredOrder(a: Instant, b: Instant)
    requires Representable(a) && Representable(b) && FourDigits(a) && FourDigits(b)
    ensures TextLe(StoredText(a), StoredText(b)) <==> a <= b
  {
    StoredIsIso(a);
    StoredIsIso(b);
    IsoOrder(a, b);
  }

  /** For others it is not: every instant of the year 999 sorts before every later one of the year 1000 only where
      years are zero-filled. */
  lemma ThreeDigitYear(a: Instant, b: Instant)
    requires FromInstant(a).year == 999 && FromInstant(b).year == 1000
    ensures a < b && (TextLe(StoredText(a), StoredText(b)) <==> ZERO_FILLS)
  {
    DayNumberOrder(FromInstant(a), FromInstant(b));
    if ZERO_FILLS {
      YearBound(a);
      YearBound(b);
      StoredOrder(a, b);
    } else {
      FirstDigits();
      assert StoredText(a)[0] == '9' && StoredText(b)[0] == '1';
    }
  }

  /** Every calendar date and time is that of some instant. */
  lemma CivilRoundTrip(c: Civil)
    requires ValidCivil(c)
    ensures FromInstant(ToInstant(c)) == c
  {
    DayNumberDetermines(FromInstant(ToInstant(c)), c);
  }

  /** The length of a month, January to December. */
  function GregorianLength(year: nat, month: nat): nat
    requires 1 <= month <= 12
  {
    var february := if year % 4 == 0 && (year % 100 != 0 || year % 400 == 0) then 29 else 28;
    [31, february, 31, 30, 31, 30, 31, 31, 30, 31, 30, 31][month - 1]
  }

  lemma GregorianMonths(year: nat, month: nat)
    requires 1 <= month <= 12
    ensures DaysInMonth(year, month) == GregorianLength(year, month)
  {
  }

  /** Every day is followed by the next of the Gregorian calendar, at the same time of day. */
  lemma NextDay(t: Instant)
    ensures var c := FromInstant(t);
      FromInstant(t + 86_400_000_000) ==
        if c.day < GregorianLength(c.year, c.month) then c.(day := c.day + 1)
        else if c.month < 12 then c.(month := c.month + 1, day := 1)
        else c.(year := c.year + 1, month := 1, day := 1)
  {
    hide FromInstant, DaysInMonth, DaysBeforeYear, IsLeap, GregorianLength;
    var c := FromInstant(t);
    GregorianMonths(c.year, c.month);
    var next := if c.day < GregorianLength(c.year, c.month) then c.(day := c.day + 1)
      else if c.month < 12 then c.(month := c.month + 1, day := 1)
      else c.(year := c.year + 1, month := 1, day := 1);
    YearLength(c.year);
    NextMonth(c.year, c.month);
    FirstIsDay(next.year, next.month);
    assert DayNumber(next) == DayNumber(c) + 1;
    NextMidnight(DayNumber(c));
    CivilRoundTrip(next);
  }

  lemma FirstIsDay(year: nat, month: nat)
    requires 1 <= month <= 12
    ensures DaysInMonth(year, month) >= 28
  {
  }

  /** The first instant is the first of January of the year 1. */
  lemma FirstInstant()
    ensures FromInstant(0) == Civil(1, 1, 1, 0, 0, 0, 0)
  {
    hide FromInstant;
    CivilRoundTrip(Civil(1, 1, 1, 0, 0, 0, 0));
    assert ToInstant(Civil(1, 1, 1, 0, 0, 0, 0)) == 0;
  }

  lemma NextMonth(year: nat, month: nat)
    requires 1 <= month <= 12
    ensures DaysBeforeMonth(year, month + 1) == DaysBeforeMonth(year, month) + DaysInMonth(year, month)
    ensures DaysBeforeMonth(year, 1) == 0
  {
  }

  lemma NextMidnight(day: nat)
    ensures Midnight(day + 1) == Midnight(day) + 86_400_000_000
  {
  }

  /** A zero-filled number, a separator, and the rest of the text. */
  function Field(n: nat, width: nat, separator: string, rest: string): string { Pad(n, width) + separator + rest }

  /** -MM-DDTHH:MM:SS.ffffffZ */
  function AfterYear(c: Civil): string {
    "-" + Field(c.month, 2, "-", Field(c.day, 2, "T", Field(c.hour, 2, ":", Field(c.minute, 2, ":",
    Field(c.second, 2, ".", Field(c.micro, 6, "Z", ""))))))
  }

  /** Both texts are the calendar fields in ISO 8601 layout, and differ at most in how the year is filled. */
  lemma TextForms(t: Instant)
    ensures var c := FromInstant(t);
      && IsoText(t) == Pad(c.year, 4) + AfterYear(c)
      && StoredText(t) == (if ZERO_FILLS then Pad(c.year, 4) else Decimal(c.year)) + AfterYear(c)
  {
    hide FromInstant, Pad, Decimal, Layout;
    var c := FromInstant(t);
    AfterYearLayout(c);
    LayoutFrom(Fields(c), 0);
    assert Fields(c)[0..] == Fields(c) && WIDTHS[0..] == WIDTHS && SEPARATORS[0..] == SEPARATORS;
    assert Pad(c.year, 4) + "-" + Layout(Fields(c)[1..], WIDTHS[1..], SEPARATORS[1..]) == Pad(c.year, 4) + AfterYear(c);
    assert YearText(c.year) + "-" + Layout(Fields(c)[1..], WIDTHS[1..], SEPARATORS[1..])
      == YearText(c.year) + AfterYear(c);
  }

  lemma AfterYearLayout(c: Civil)
    ensures "-" + Layout(Fields(c)[1..], WIDTHS[1..], SEPARATORS[1..]) == AfterYear(c)
  {
    hide Pad, Layout;
    LayoutFrom(Fields(c), 6);
    LayoutFrom(Fields(c), 5);
    LayoutFrom(Fields(c), 4);
    LayoutFrom(Fields(c), 3);
    LayoutFrom(Fields(c), 2);
    LayoutFrom(Fields(c), 1);
  }

  lemma LayoutFrom(values: seq<nat>, i: nat)
    requires |values| == 7 && i < 7
    ensures Layout(values[i..], WIDTHS[i..], SEPARATORS[i..]) ==
      Pad(values[i], WIDTHS[i]) + [SEPARATORS[i]]
      + (if i == 6 then "" else Layout(values[i + 1..], WIDTHS[i + 1..], SEPARATORS[i + 1..]))
  {
    hide Pad;
    assert values[i..][1..] == values[i + 1..] && WIDTHS[i..][1..] == WIDTHS[i + 1..]
      && SEPARATORS[i..][1..] == SEPARATORS[i + 1..];
  }

  lemma FirstDigits()
    ensures Decimal(999)[0] == '9' && Decimal(1000)[0] == '1'
  {
    assert Decimal(99) == Decimal(9) + ['9'] && Decimal(999) == Decimal(99) + ['9'];
    assert Decimal(10) == Decimal(1) + ['0'] && Decimal(100) == Decimal(10) + ['0'];
    assert Decimal(1000) == Decimal(100) + ['0'];
  }

  lemma DayNumberDetermines(a: Civil, b: Civil)
    requires ValidCivil(a) && ValidCivil(b) && ToInstant(a) == ToInstant(b)
    ensures a == b
  {
    if (a.year, a.month, a.day) != (b.year, b.month, b.day) {
      if a.year < b.year || (a.year == b.year && (a.month < b.month || (a.month == b.month && a.day < b.day))) {
        DayNumberOrder(a, b);
      } else {
        DayNumberOrder(b, a);
      }
    }
  }

  // ---------------------------------------------------------------- weekly windows

  datatype Window = Window(start: Instant, end: Instant)

  /** Weeks are numbered by their Mondays from the first one. */
  function WeekOf(t: Instant): nat { t / 604_800_000_000 }

  function WeekStart(week: nat): Instant { week * 604_800_000_000 }

  function WeekEnd(week: nat): Instant { WeekStart(week + 1) }

  /** WeeklyWindow.from_datetime; None is Python's OverflowError when the end passes datetime.max. */
  function WindowOf(t: Instant): Option<Window> {
    var weekday := DayOf(t) % 7;
    var start := t - TimeOfDay(t) - Midnight(weekday);
    if start + Midnight(7) >= Midnight(LAST_DAY) then None else Some(Window(start, start + Midnight(7)))
  }

  /** WeeklyWindow.from_bounds. */
  function WindowFromBounds(start: Instant, end: Instant): Option<Window> {
    if DayOf(start) % 7 != 0 || TimeOfDay(start) != 0 || end != start + Midnight(7) then None
    else Some(Window(start, end))
  }

  /** The window_start expression of the candidate query; %w numbers Sunday 0 and the first day is a Monday. */
  function SqlMonday(t: Instant): int {
    var w := (DayOf(t) + 1) % 7;
    (DayOf(t) - (w + 6) % 7) * 86_400_000_000
  }

  lemma WeekHolds(t: Instant, week: nat)
    ensures WeekStart(week) <= t < WeekEnd(week) <==> WeekOf(t) == week
  {
  }

  lemma DayInWeek(t: Instant)
    ensures DayOf(t) == 7 * WeekOf(t) + DayOf(t) % 7 && t == Midnight(DayOf(t)) + TimeOfDay(t)
    ensures WeekStart(WeekOf(t)) == Midnight(7 * WeekOf(t))
    ensures WeekEnd(WeekOf(t)) == Midnight(7 * WeekOf(t)) + Midnight(7)
  {
  }

  /** Windows partition time, and the three computations of the Monday agree on every instant. */
  lemma WindowsPartition(t: Instant, week: nat)
    ensures WeekStart(week) <= t < WeekEnd(week) <==> WeekOf(t) == week
    ensures WindowOf(t).Some? <==> t < Midnight(LAST_DAY - 5)
    ensures WindowOf(t).Some? ==> WindowOf(t).value == Window(WeekStart(WeekOf(t)), WeekEnd(WeekOf(t)))
    ensures SqlMonday(t) == WeekStart(WeekOf(t))
  {
    hide DayOf, WeekOf, TimeOfDay, WeekStart, WeekEnd;
    WeekHolds(t, week);
    DayInWeek(t);
    LastWindow(t);
  }

  lemma LastWindow(t: Instant)
    ensures Midnight(7 * WeekOf(t)) + Midnight(7) < Midnight(LAST_DAY) <==> t < Midnight(LAST_DAY - 5)
  {
  }

  /** Midnight of a Monday starts its own week. */
  lemma StartOfWeek(t: Instant)
    requires DayOf(t) % 7 == 0 && TimeOfDay(t) == 0
    ensures t == WeekStart(WeekOf(t)) && t + Midnight(7) == WeekEnd(WeekOf(t))
  {
    var day := t / 86_400_000_000;
    assert t == day * 86_400_000_000;
    assert day == day / 7 * 7;
    assert t == day / 7 * 604_800_000_000;
  }

  lemma WeekBounds(week: nat)
    ensures DayOf(WeekStart(week)) % 7 == 0 && TimeOfDay(WeekStart(week)) == 0
      && WeekEnd(week) == WeekStart(week) + Midnight(7)
  {
    assert WeekStart(week) == week * 7 * 86_400_000_000;
  }

  /** from_bounds accepts exactly the week windows. */
  lemma BoundsAreWindows(start: Instant, end: Instant)
    ensures WindowFromBounds(start, end).Some? <==> exists week: nat :: start == WeekStart(week) && end == WeekEnd(week)
  {
    hide DayOf, TimeOfDay, Midnight, WeekStart, WeekEnd, WeekOf;
    forall week: nat | start == WeekStart(week) && end == WeekEnd(week) ensures WindowFromBounds(start, end).Some? {
      WeekBounds(week);
    }
    if WindowFromBounds(start, end).Some? {
      StartOfWeek(start);
    }
  }
}
