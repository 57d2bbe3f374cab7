/** The search predicates: the LIKE pattern that matches a literal text, and the inclusive calendar-date bounds. */
module Search {
  import opened Orders
  import opened Calendar
  import opened Statistics

  // ---------------------------------------------------------------- LIKE

  /** SQLite compares LIKE operands, and lower() maps, ASCII letters only. */
  function Fold(c: char): char { if 'A' <= c <= 'Z' then (c as int + 32) as char else c }

  function FoldText(s: string): (t: string)
    ensures |t| == |s| && forall i | 0 <= i < |s| :: t[i] == Fold(s[i])
  {
    seq(|s|, i requires 0 <= i < |s| => Fold(s[i]))
  }

  /** pattern LIKE with ESCAPE '\' */
  predicate Like(pattern: string, text: string)
    decreases |pattern|, |text|
  {
    if pattern == "" then text == ""
    else if pattern[0] == '\\' then
      |pattern| >= 2 && text != "" && Fold(pattern[1]) == Fold(text[0]) && Like(pattern[2..], text[1..])
    else if pattern[0] == '%' then Like(pattern[1..], text) || (text != "" && Like(pattern, text[1..]))
    else if pattern[0] == '_' then text != "" && Like(pattern[1..], text[1..])
    else text != "" && Fold(pattern[0]) == Fold(text[0]) && Like(pattern[1..], text[1..])
  }

  /** str.replace with a one-character needle. */
  function Replace(s: string, needle: char, with: string): string {
    if s == "" then "" else (if s[0] == needle then with else [s[0]]) + Replace(s[1..], needle, with)
  }

  /** literal_like_pattern: three passes, the escape character first. */
  function LiteralPattern(s: string): string {
    "%" + Replace(Replace(Replace(s, '\\', "\\\\"), '%', "\\%"), '_', "\\_") + "%"
  }

  predicate Special(c: char) { c == '\\' || c == '%' || c == '_' }

  /** One pass that puts an escape before every special character. */
  function Escape(s: string): string {
    if s == "" then "" else (if Special(s[0]) then ['\\', s[0]] else [s[0]]) + Escape(s[1..])
  }

  lemma {:induction false} ReplaceAppends(a: string, b: string, needle: char, with: string)
    ensures Replace(a + b, needle, with) == Replace(a, needle, with) + Replace(b, needle, with)
  {
    if a == "" {
      assert a + b == b;
    } else {
      assert (a + b)[1..] == a[1..] + b;
      ReplaceAppends(a[1..], b, needle, with);
    }
  }

  lemma ReplaceShort(c: char, d: char, needle: char, with: string)
    ensures Replace([c], needle, with) == if c == needle then with else [c]
    ensures Replace([c, d], needle, with) == (if c == needle then with else [c]) + (if d == needle then with else [d])
  {
    assert [c][1..] == "" && [c, d][1..] == [d];
    assert Replace([c], needle, with) == (if c == needle then with else [c]) + Replace("", needle, with);
    assert Replace([d], needle, with) == (if d == needle then with else [d]) + Replace([d][1..], needle, with);
  }

  lemma HeadEscapes(c: char)
    ensures var doubled := if c == '\\' then "\\\\" else [c];
      Replace(Replace(doubled, '%', "\\%"), '_', "\\_") == if Special(c) then ['\\', c] else [c]
  {
    ReplaceShort(c, c, '%', "\\%");
    ReplaceShort(c, c, '_', "\\_");
    ReplaceShort('\\', '\\', '%', "\\%");
    ReplaceShort('\\', '\\', '_', "\\_");
    ReplaceShort('\\', '%', '_', "\\_");
  }

  /** The three passes are one: no pass touches what an earlier one inserted. */
  lemma {:induction false} ThreePassesEscape(s: string)
    ensures Replace(Replace(Replace(s, '\\', "\\\\"), '%', "\\%"), '_', "\\_") == Escape(s)
  {
    if s != "" {
      var head := if s[0] == '\\' then "\\\\" else [s[0]];
      var rest := Replace(s[1..], '\\', "\\\\");
      assert Replace(s, '\\', "\\\\") == head + rest;
      hide Replace;
      ReplaceAppends(head, rest, '%', "\\%");
      ReplaceAppends(Replace(head, '%', "\\%"), Replace(rest, '%', "\\%"), '_', "\\_");
      HeadEscapes(s[0]);
      ThreePassesEscape(s[1..]);
    }
  }

  lemma {:induction false} TailMatches(text: string)
    ensures Like("%", text)
  {
    assert "%"[1..] == "";
    if text != "" { TailMatches(text[1..]); }
  }

  ghost predicate PrefixAt(s: string, t: string, i: nat) { i + |s| <= |t| && FoldText(t)[i..i + |s|] == FoldText(s) }

  /** A literal pattern followed by % matches exactly the texts that begin with it. */
  lemma {:induction false} EscapeMatchesPrefix(s: string, t: string)
    ensures Like(Escape(s) + "%", t) <==> PrefixAt(s, t, 0)
  {
    if s == "" {
      assert Escape(s) + "%" == "%";
      TailMatches(t);
    } else {
      var p := Escape(s) + "%";
      assert p == (if Special(s[0]) then ['\\', s[0]] else [s[0]]) + (Escape(s[1..]) + "%");
      if t != "" {
        EscapeMatchesPrefix(s[1..], t[1..]);
        if Special(s[0]) { assert p[2..] == Escape(s[1..]) + "%"; } else { assert p[1..] == Escape(s[1..]) + "%"; }
        PrefixSteps(s, t);
      }
    }
  }

  lemma PrefixSteps(s: string, t: string)
    requires s != "" && t != ""
    ensures PrefixAt(s, t, 0) <==> Fold(s[0]) == Fold(t[0]) && PrefixAt(s[1..], t[1..], 0)
  {
    if |s| <= |t| {
      assert FoldText(s) == [Fold(s[0])] + FoldText(s[1..]);
      assert FoldText(t)[0..|s|] == [Fold(t[0])] + FoldText(t[1..])[0..|s| - 1];
    }
  }

  /** A leading % matches wherever the rest does. */
  lemma {:induction false} PercentSearches(rest: string, t: string)
    ensures Like("%" + rest, t) <==> exists i | 0 <= i <= |t| :: Like(rest, t[i..])
  {
    var p := "%" + rest;
    assert p[1..] == rest && t[0..] == t;
    if t != "" {
      PercentSearches(rest, t[1..]);
      if i :| 0 <= i <= |t[1..]| && Like(rest, t[1..][i..]) { assert t[i + 1..] == t[1..][i..]; }
      if i :| 1 <= i <= |t| && Like(rest, t[i..]) { assert t[1..][i - 1..] == t[i..]; }
    }
  }

  ghost predicate Occurs(s: string, t: string) { exists i: nat :: PrefixAt(s, t, i) }

  /** The same character, or the two cases of one ASCII letter. */
  predicate SameLetter(c: char, d: char) {
    c == d || ('A' <= c <= 'Z' && d as int == c as int + 32) || ('A' <= d <= 'Z' && c as int == d as int + 32)
  }

  /** The text stands at place `i` of the other, letter by letter. */
  ghost predicate StandsAt(s: string, t: string, i: nat) {
    i + |s| <= |t| && forall j | 0 <= j < |s| :: SameLetter(s[j], t[i + j])
  }

  lemma OccursMeans(s: string, t: string)
    ensures Occurs(s, t) <==> exists i: nat :: StandsAt(s, t, i)
  {
    forall i: nat ensures PrefixAt(s, t, i) <==> StandsAt(s, t, i) {
      if i + |s| <= |t| {
        forall j | 0 <= j < |s| ensures SameLetter(s[j], t[i + j]) <==> FoldText(s)[j] == FoldText(t)[i..i + |s|][j] {
          LettersFold(s[j], t[i + j]);
        }
        if StandsAt(s, t, i) { assert FoldText(t)[i..i + |s|] == FoldText(s); }
      }
    }
  }

  lemma LettersFold(c: char, d: char)
    ensures SameLetter(c, d) <==> Fold(c) == Fold(d)
  {
  }

  /** Unescaped, a search text would match others than those it occurs in: % any run of characters, _ any one. */
  lemma WhyEscape()
    ensures Like("%a_c%", "abc") && !Occurs("a_c", "abc")
    ensures Like("%a%c%", "abbc") && !Occurs("a%c", "abbc")
  {
    hide Like, Occurs;
    UnderscoreMatchesOne();
    PercentMatchesMany();
  }

  lemma UnderscoreMatchesOne()
    ensures Like("%a_c%", "abc") && !Occurs("a_c", "abc")
  {
    assert Like("c%", "c") by {
      TailMatches("");
      assert "c%"[1..] == "%" && "c"[1..] == "";
    }
    assert "_c%"[1..] == "c%" && "bc"[1..] == "c";
    assert "a_c%"[1..] == "_c%" && "abc"[1..] == "bc";
    assert "%a_c%"[1..] == "a_c%";
    OccursMeans("a_c", "abc");
  }

  lemma PercentMatchesMany()
    ensures Like("%a%c%", "abbc") && !Occurs("a%c", "abbc")
  {
    assert Like("c%", "c") by {
      TailMatches("");
      assert "c%"[1..] == "%" && "c"[1..] == "";
    }
    assert Like("%c%", "c") by { assert "%c%"[1..] == "c%"; }
    assert "bc"[1..] == "c" && "bbc"[1..] == "bc";
    assert "a%c%"[1..] == "%c%" && "abbc"[1..] == "bbc";
    assert "%a%c%"[1..] == "a%c%";
    OccursMeans("a%c", "abbc");
  }

  lemma PrefixOfSuffix(s: string, t: string, i: nat)
    requires i <= |t|
    ensures PrefixAt(s, t[i..], 0) <==> PrefixAt(s, t, i)
  {
    if i + |s| <= |t| { assert FoldText(t[i..])[0..|s|] == FoldText(t)[i..i + |s|]; }
  }

  /** The pattern built from any text matches exactly the texts it occurs in, up to the case of ASCII letters. */
  lemma PatternMeansOccurrence(s: string, t: string)
    ensures Like(LiteralPattern(s), t) <==> Occurs(s, t)
    ensures Like(LiteralPattern(s), t) <==> exists i: nat :: StandsAt(s, t, i)
  {
    OccursMeans(s, t);
    ThreePassesEscape(s);
    var rest := Escape(s) + "%";
    assert LiteralPattern(s) == "%" + rest;
    PercentSearches(rest, t);
    forall i | 0 <= i <= |t| ensures Like(rest, t[i..]) <==> PrefixAt(s, t, i) {
      EscapeMatchesPrefix(s, t[i..]);
      PrefixOfSuffix(s, t, i);
    }
  }

  // ---------------------------------------------------------------- date bounds as the database compares them

  /** column >= bound, on the stored texts. */
  predicate StoredAtLeast(value: Instant, bound: Instant) { TextLe(StoredText(bound), StoredText(value)) }

  /** The instants whose text sorts with the four-digit ones: those, and the years that begin every text from 1000
      on. */
  predicate SortsRight(bound: Instant) { FourDigits(bound) || FromInstant(bound).year in {1, 10, 100} }

  lemma ShortYear(y: nat)
    requires y < 1000
    ensures Decimal(y) == if y < 10 then [Digit(y)] else if y < 100 then [Digit(y / 10), Digit(y % 10)]
      else [Digit(y / 100), Digit(y / 10 % 10), Digit(y % 10)]
  {
    if y >= 10 { assert Decimal(y) == Decimal(y / 10) + [Digit(y % 10)]; }
    if y >= 100 { assert Decimal(y / 10) == Decimal(y / 100) + [Digit(y / 10 % 10)]; }
  }

  lemma LongYear(y: nat)
    requires 1000 <= y <= 9999
    ensures Decimal(y) == [Digit(y / 1000), Digit(y / 100 % 10), Digit(y / 10 % 10), Digit(y % 10)]
  {
    ShortYear(y / 10);
    assert Decimal(y) == Decimal(y / 10) + [Digit(y % 10)];
  }

  /** Texts are ordered by the first place they differ. */
  lemma {:induction false} TextLeAt(a: string, b: string, i: nat)
    requires i < |a| && i < |b| && a[..i] == b[..i] && a[i] != b[i]
    ensures TextLe(a, b) <==> a[i] < b[i]
  {
    if i > 0 {
      assert a[0] == a[..i][0] == b[..i][0] == b[0];
      assert a[1..][..i - 1] == a[..i][1..] == b[..i][1..] == b[1..][..i - 1];
      TextLeAt(a[1..], b[1..], i - 1);
    }
  }

  /** The least four-digit year whose text comes after that of a shorter one. */
  function Scaled(y: nat): nat { if y < 10 then 1000 * y else if y < 100 then 100 * y else 10 * y }

  lemma ShortText(y: nat, z: nat, x: string, w: string)
    requires 1 <= y < 1000 && 1000 <= z <= 9999
    ensures TextLe(Decimal(y) + ['-'] + x, Decimal(z) + w) <==> Scaled(y) <= z
  {
    hide Decimal, TextLe, Scaled, Digit;
    ShortYear(y);
    LongYear(z);
    var p, q, r, s := z / 1000, z / 100 % 10, z / 10 % 10, z % 10;
    ScaledParts(y, z);
    if y < 10 {
      OneDigit(y, p, q, r, s, x, w);
    } else if y < 100 {
      TwoDigits(y / 10, y % 10, p, q, r, s, x, w);
    } else {
      ThreeDigits(y / 100, y / 10 % 10, y % 10, p, q, r, s, x, w);
    }
  }

  /** Scaling compares a shorter year with as many leading digits. */
  lemma ScaledParts(y: nat, z: nat)
    requires y < 1000 && z <= 9999
    ensures var (p, q, r) := (z / 1000, z / 100 % 10, z / 10 % 10); Scaled(y) <= z <==>
      if y < 10 then y <= p
      else if y < 100 then 10 * (y / 10) + y % 10 <= 10 * p + q
      else 100 * (y / 100) + 10 * (y / 10 % 10) + y % 10 <= 100 * p + 10 * q + r
  {
    LeadingDigits(y);
    LeadingDigits(z);
    assert 1000 * y <= z <==> y <= z / 1000;
    assert 100 * y <= z <==> y <= z / 100;
    assert 10 * y <= z <==> y <= z / 10;
  }

  lemma LeadingDigits(z: nat)
    ensures z == 10 * (z / 10) + z % 10 && z / 10 == 10 * (z / 100) + z / 10 % 10
      && z / 100 == 10 * (z / 1000) + z / 100 % 10
  {
  }

  lemma OneDigit(a: nat, p: nat, q: nat, r: nat, s: nat, x: string, w: string)
    requires a < 10 && p < 10 && q < 10 && r < 10 && s < 10
    ensures TextLe([Digit(a)] + ['-'] + x, [Digit(p), Digit(q), Digit(r), Digit(s)] + w) <==> a <= p
  {
    hide TextLe;
    TextLeAt([Digit(a)] + ['-'] + x, [Digit(p), Digit(q), Digit(r), Digit(s)] + w, if a != p then 0 else 1);
  }

  lemma TwoDigits(a: nat, b: nat, p: nat, q: nat, r: nat, s: nat, x: string, w: string)
    requires a < 10 && b < 10 && p < 10 && q < 10 && r < 10 && s < 10
    ensures TextLe([Digit(a), Digit(b)] + ['-'] + x, [Digit(p), Digit(q), Digit(r), Digit(s)] + w)
      <==> 10 * a + b <= 10 * p + q
  {
    hide TextLe;
    TextLeAt([Digit(a), Digit(b)] + ['-'] + x, [Digit(p), Digit(q), Digit(r), Digit(s)] + w,
      if a != p then 0 else if b != q then 1 else 2);
  }

  lemma ThreeDigits(a: nat, b: nat, c: nat, p: nat, q: nat, r: nat, s: nat, x: string, w: string)
    requires a < 10 && b < 10 && c < 10 && p < 10 && q < 10 && r < 10 && s < 10
    ensures TextLe([Digit(a), Digit(b), Digit(c)] + ['-'] + x, [Digit(p), Digit(q), Digit(r), Digit(s)] + w)
      <==> 100 * a + 10 * b + c <= 100 * p + 10 * q + r
  {
    hide TextLe;
    TextLeAt([Digit(a), Digit(b), Digit(c)] + ['-'] + x, [Digit(p), Digit(q), Digit(r), Digit(s)] + w,
      if a != p then 0 else if b != q then 1 else if c != r then 2 else 3);
  }

  lemma StoredParts(t: Instant) returns (rest: string)
    ensures StoredText(t) == YearText(FromInstant(t).year) + ['-'] + rest
  {
    rest := Layout(Fields(FromInstant(t))[1..], WIDTHS[1..], SEPARATORS[1..]);
  }

  /** A bound of a shorter year lets through the four-digit years from the scaled one on. */
  lemma ShortBound(bound: Instant, value: Instant)
    requires Representable(value) && FourDigits(value) && !FourDigits(bound)
    ensures StoredAtLeast(value, bound) <==> Scaled(FromInstant(bound).year) <= FromInstant(value).year
  {
    hide StoredText, FromInstant, TextLe, Scaled;
    YearBound(value);
    var x := StoredParts(bound);
    var w := StoredParts(value);
    ShortText(FromInstant(bound).year, FromInstant(value).year, x, ['-'] + w);
    assert StoredText(value) == Decimal(FromInstant(value).year) + (['-'] + w);
  }

  lemma FirstOfYear(year: nat)
    requires 1 <= year <= 9999
    ensures var t := ToInstant(Civil(year, 1, 1, 0, 0, 0, 0)); FromInstant(t).year == year && Representable(t)
  {
    var c := Civil(year, 1, 1, 0, 0, 0, 0);
    assert ValidCivil(c);
    CivilRoundTrip(c);
    YearBound(ToInstant(c));
  }

  lemma EarlierYear(a: Instant, b: Instant)
    requires FromInstant(a).year < FromInstant(b).year
    ensures a < b
  {
    DayNumberOrder(FromInstant(a), FromInstant(b));
  }

  /** Another short year as a bound hides the first instant of the year 1000. */
  lemma OtherShortYear(bound: Instant)
    requires !SortsRight(bound)
    ensures var value := ToInstant(Civil(1000, 1, 1, 0, 0, 0, 0));
      FourDigits(value) && bound < value && !StoredAtLeast(value, bound)
  {
    hide StoredText, FromInstant, TextLe;
    var value := ToInstant(Civil(1000, 1, 1, 0, 0, 0, 0));
    FirstOfYear(1000);
    EarlierYear(bound, value);
    ShortBound(bound, value);
  }

  /** A bound filters every row of a four-digit year by time exactly when its own text sorts right. */
  lemma BoundFiltersByTime(bound: Instant)
    requires Representable(bound)
    ensures SortsRight(bound) <==>
      forall value | Representable(value) && FourDigits(value) :: StoredAtLeast(value, bound) <==> bound <= value
  {
    hide StoredText, FromInstant, Representable;
    if SortsRight(bound) {
      forall value | Representable(value) && FourDigits(value) ensures StoredAtLeast(value, bound) <==> bound <= value {
        if FourDigits(bound) {
          StoredOrder(bound, value);
        } else {
          ShortBound(bound, value);
          YearBound(value);
          EarlierYear(bound, value);
        }
      }
    } else {
      OtherShortYear(bound);
      FirstOfYear(1000);
    }
  }

  // ---------------------------------------------------------------- weekly windows as the database compares them

  /** created_at >= :window_start AND created_at < :window_end, on the stored texts. */
  predicate StoredWithin(value: Instant, week: nat) {
    StoredAtLeast(value, WeekStart(week)) && !StoredAtLeast(value, WeekEnd(week))
  }

  function StoredWindowRows(t: Table, user: nat, week: nat): Table {
    map id | id in t && t[id].user == user && StoredWithin(t[id].createdAt, week) :: t[id]
  }

  /** The weeks whose two bounds sort right together: where years are not zero-filled, those that begin in a four-digit
      year, lie in one year, or end the last year of one or two digits. */
  predicate WindowSortsRight(week: nat) {
    var first := FromInstant(WeekStart(week)).year;
    FourDigits(WeekStart(week)) || first in {9, 99} || first == FromInstant(WeekEnd(week)).year
  }

  /** A week touches at most two years. */
  lemma WeekYears(week: nat)
    ensures var first := FromInstant(WeekStart(week)).year; first <= FromInstant(WeekEnd(week)).year <= first + 1
  {
    var a, b := FromInstant(WeekStart(week)), FromInstant(WeekEnd(week));
    if b.year < a.year { DayNumberOrder(b, a); }
    if b.year > a.year + 1 { YearBetween(a, b); }
  }

  lemma YearBetween(a: Civil, b: Civil)
    requires ValidCivil(a) && ValidCivil(b) && a.year + 2 <= b.year
    ensures DayNumber(b) >= DayNumber(a) + 365
  {
    hide IsLeap, DaysBeforeYear;
    var opens := Civil(a.year + 1, 1, 1, 0, 0, 0, 0);
    DayNumberOrder(a, opens);
    YearLength(a.year + 1);
    YearsAscend(a.year + 2, b.year);
  }

  lemma YearOpens(t: Instant)
    ensures var year := FromInstant(t).year; ToInstant(Civil(year, 1, 1, 0, 0, 0, 0)) <= t
  {
    var c := FromInstant(t);
    var opens := Civil(c.year, 1, 1, 0, 0, 0, 0);
    if c.month > 1 || c.day > 1 { DayNumberOrder(opens, c); }
  }

  /** The first day of the year 1000 is a Wednesday, so it lies inside the week that begins in 999. */
  lemma WeekOfMillennium(week: nat)
    requires FromInstant(WeekStart(week)).year == 999 && FromInstant(WeekEnd(week)).year == 1000
    ensures var value := ToInstant(Civil(1000, 1, 1, 0, 0, 0, 0)); WeekStart(week) < value < WeekEnd(week)
  {
    hide FromInstant, ToInstant, WeekStart, WeekEnd, DayOf;
    var value := ToInstant(Civil(1000, 1, 1, 0, 0, 0, 0));
    FirstOfYear(1000);
    EarlierYear(WeekStart(week), value);
    YearOpens(WeekEnd(week));
    MillenniumDay();
    WeekOpens(week);
  }

  lemma MillenniumDay()
    ensures DayOf(ToInstant(Civil(1000, 1, 1, 0, 0, 0, 0))) % 7 == 2
  {
    assert ToInstant(Civil(1000, 1, 1, 0, 0, 0, 0)) == Midnight(364_877);
  }

  lemma WeekOpens(week: nat)
    ensures DayOf(WeekEnd(week)) % 7 == 0
  {
    hide DayOf, WeekStart;
    WeekBounds(week + 1);
  }

  lemma WindowSelects(week: nat, value: Instant)
    requires Representable(value) && FourDigits(value) && Representable(WeekEnd(week)) && WindowSortsRight(week)
    ensures StoredWithin(value, week) <==> WeekStart(week) <= value < WeekEnd(week)
  {
    hide FromInstant, StoredText, TextLe, WeekStart, WeekEnd;
    WeekYears(week);
    WeekBounds(week);
    if FourDigits(WeekStart(week)) {
      StoredOrder(WeekStart(week), value);
      StoredOrder(WeekEnd(week), value);
    } else {
      ShortBound(WeekStart(week), value);
      ShortBound(WeekEnd(week), value);
      EarlierYear(WeekEnd(week), value);
    }
  }

  /** In any other week some row of a four-digit year is selected or left out wrongly. */
  lemma WrongInWindow(week: nat) returns (value: Instant)
    requires Representable(WeekEnd(week)) && !WindowSortsRight(week)
    ensures Representable(value) && FourDigits(value)
    ensures StoredWithin(value, week) <==> !(WeekStart(week) <= value < WeekEnd(week))
  {
    hide FromInstant, StoredText, TextLe, WeekStart, WeekEnd;
    WeekYears(week);
    var first := FromInstant(WeekStart(week)).year;
    var year := if first == 999 then 1000 else Scaled(first);
    value := ToInstant(Civil(year, 1, 1, 0, 0, 0, 0));
    FirstOfYear(year);
    ShortBound(WeekStart(week), value);
    if first == 999 {
      WeekOfMillennium(week);
    } else {
      ShortBound(WeekEnd(week), value);
      EarlierYear(WeekEnd(week), value);
    }
  }

  /** Exactly in those weeks do the texts select every row of a four-digit year by its time. */
  lemma WindowFiltersByTime(week: nat)
    requires Representable(WeekEnd(week))
    ensures WindowSortsRight(week) <==> forall value: Instant | Representable(value) && FourDigits(value) ::
      StoredWithin(value, week) <==> WeekStart(week) <= value < WeekEnd(week)
  {
    hide FromInstant, Representable, StoredAtLeast, WeekStart, WeekEnd, Scaled;
    if WindowSortsRight(week) {
      forall value: Instant | Representable(value) && FourDigits(value)
        ensures StoredWithin(value, week) <==> WeekStart(week) <= value < WeekEnd(week)
      {
        WindowSelects(week, value);
      }
    } else {
      var value := WrongInWindow(week);
    }
  }

  /** The weekly statements' bounds select the window's rows in every table of four-digit years exactly for a week whose
      bounds sort right. */
  lemma StoredWindowIsWindow(user: nat, week: nat)
    requires Representable(WeekEnd(week))
    ensures WindowSortsRight(week) <==> forall t: Table | FourDigitRows(t) ::
      StoredWindowRows(t, user, week) == WindowRows(t, user, week)
  {
    hide WindowSortsRight, StoredWithin, Representable, FourDigits, WeekStart, WeekEnd;
    if WindowSortsRight(week) {
      forall t: Table | FourDigitRows(t) ensures StoredWindowRows(t, user, week) == WindowRows(t, user, week) {
        forall id | id in t ensures StoredWithin(t[id].createdAt, week)
          <==> WeekStart(week) <= t[id].createdAt < WeekEnd(week)
        {
          WindowSelects(week, t[id].createdAt);
        }
      }
    } else {
      var value := WrongInWindow(week);
      var t: Table := map[0 := Bookmark(user, "", "", None, {}, value, value)];
      assert FourDigitRows(t);
      assert 0 in StoredWindowRows(t, user, week) <==> 0 !in WindowRows(t, user, week);
    }
  }

  // ---------------------------------------------------------------- the search predicates

  datatype Query = Query(
    tag: Option<string>, q: Option<string>, createdFrom: Option<nat>, createdTo: Option<nat>,
    updatedFrom: Option<nat>, updatedTo: Option<nat>, page: nat, pageSize: nat)

  datatype Column = CreatedAt | UpdatedAt

  datatype Predicate =
    | OwnerIs(user: nat)
    | HasTag(name: string)
    | TitleLike(pattern: string)
    | AtLeast(column: Column, bound: Instant)
    | Before(column: Column, bound: Instant)

  function ValueOf(b: Bookmark, c: Column): Instant { if c == CreatedAt then b.createdAt else b.updatedAt }

  predicate Holds(p: Predicate, b: Bookmark) {
    match p
    case OwnerIs(user) => b.user == user
    case HasTag(name) => name in b.tags
    case TitleLike(pattern) => Like(pattern, FoldText(b.title))
    case AtLeast(column, bound) => StoredAtLeast(ValueOf(b, column), bound)
    case Before(column, bound) => !StoredAtLeast(ValueOf(b, column), bound)
  }

  /** A date is the number of its day; date.max has no next midnight. */
  function UpperBound(day: nat): Option<Instant> { if day == LAST_DAY - 1 then None else Some(Midnight(day + 1)) }

  predicate InDates(t: Instant, from: Option<nat>, to: Option<nat>) {
    (from.Some? ==> from.value <= DayOf(t)) && (to.Some? ==> DayOf(t) <= to.value)
  }

  /** What a search asks for: dates inclusive, the text anywhere in the title. */
  ghost predicate Matches(query: Query, user: nat, b: Bookmark) {
    && b.user == user
    && (query.tag.Some? ==> query.tag.value in b.tags)
    && (query.q.Some? ==> exists i: nat :: StandsAt(query.q.value, b.title, i))
    && InDates(b.createdAt, query.createdFrom, query.createdTo)
    && InDates(b.updatedAt, query.updatedFrom, query.updatedTo)
  }

  predicate Usable(from: Option<nat>, to: Option<nat>) {
    && (from.Some? ==> from.value < LAST_DAY && SortsRight(Midnight(from.value)))
    && (to.Some? ==> to.value < LAST_DAY && (UpperBound(to.value).Some? ==> SortsRight(Midnight(to.value + 1))))
  }

  ghost predicate StoredRow(b: Bookmark) {
    && Representable(b.createdAt) && FourDigits(b.createdAt)
    && Representable(b.updatedAt) && FourDigits(b.updatedAt)
  }

  ghost predicate AllHold(ps: seq<Predicate>, b: Bookmark) { forall p | p in ps :: Holds(p, b) }

  lemma FoldTwice(s: string, t: string)
    ensures Occurs(s, FoldText(t)) <==> Occurs(s, t)
  {
    assert FoldText(FoldText(t)) == FoldText(t);
    forall i: nat ensures PrefixAt(s, FoldText(t), i) <==> PrefixAt(s, t, i) {}
  }

  lemma OneMore(ps: seq<Predicate>, p: Predicate, b: Bookmark)
    ensures AllHold(ps + [p], b) <==> AllHold(ps, b) && Holds(p, b)
  {
    hide Holds;
    if AllHold(ps + [p], b) {
      assert p in ps + [p];
      forall x | x in ps ensures Holds(x, b) { assert x in ps + [p]; }
    }
  }

  /** The conditions on one column as the database evaluates them. */
  predicate InStoredRange(t: Instant, from: Option<nat>, to: Option<nat>) {
    && (from.Some? ==> StoredAtLeast(t, Midnight(from.value)))
    && (to.Some? && UpperBound(to.value).Some? ==> !StoredAtLeast(t, UpperBound(to.value).value))
  }

  lemma StoredRangeIsDates(t: Instant, from: Option<nat>, to: Option<nat>)
    requires Usable(from, to) && Representable(t) && FourDigits(t)
    ensures InStoredRange(t, from, to) <==> InDates(t, from, to)
  {
    hide FromInstant, StoredAtLeast;
    if from.Some? { BoundFiltersByTime(Midnight(from.value)); }
    if to.Some? && UpperBound(to.value).Some? { BoundFiltersByTime(Midnight(to.value + 1)); }
  }

  /** What the filters a query names come to, read as the database does. */
  ghost predicate StoredMatch(query: Query, user: nat, b: Bookmark, ranges: nat) {
    && b.user == user
    && (query.tag.Some? ==> query.tag.value in b.tags)
    && (query.q.Some? ==> Like(LiteralPattern(query.q.value), FoldText(b.title)))
    && (ranges >= 1 ==> InStoredRange(b.createdAt, query.createdFrom, query.createdTo))
    && (ranges >= 2 ==> InStoredRange(b.updatedAt, query.updatedFrom, query.updatedTo))
  }

  lemma StoredMatchMeans(query: Query, user: nat, b: Bookmark)
    requires Usable(query.createdFrom, query.createdTo) && Usable(query.updatedFrom, query.updatedTo) && StoredRow(b)
    ensures StoredMatch(query, user, b, 2) <==> Matches(query, user, b)
  {
    hide InStoredRange, InDates, Like, LiteralPattern, Occurs, Usable;
    StoredRangeIsDates(b.createdAt, query.createdFrom, query.createdTo);
    StoredRangeIsDates(b.updatedAt, query.updatedFrom, query.updatedTo);
    if query.q.Some? {
      PatternMeansOccurrence(query.q.value, FoldText(b.title));
      FoldTwice(query.q.value, b.title);
      OccursMeans(query.q.value, b.title);
    }
  }

  method Extend(predicates: seq<Predicate>, p: Predicate) returns (more: seq<Predicate>)
    ensures forall b :: AllHold(more, b) <==> AllHold(predicates, b) && Holds(p, b)
  {
    hide AllHold, Holds;
    more := predicates + [p];
    forall b ensures AllHold(more, b) <==> AllHold(predicates, b) && Holds(p, b) { OneMore(predicates, p, b); }
  }

  /** _search_predicates: with usable bounds, the conjunction is the query's meaning for every row of four-digit
      years. */
  method SearchPredicates(user: nat, query: Query) returns (predicates: seq<Predicate>)
    ensures Usable(query.createdFrom, query.createdTo) && Usable(query.updatedFrom, query.updatedTo) ==>
      forall b | StoredRow(b) :: AllHold(predicates, b) <==> Matches(query, user, b)
  {
    hide AllHold, Like, LiteralPattern, StoredAtLeast, StoredRow, Matches, Usable;
    predicates := Extend([], OwnerIs(user));
    if query.tag.Some? { predicates := Extend(predicates, HasTag(query.tag.value)); }
    if query.q.Some? { predicates := Extend(predicates, TitleLike(LiteralPattern(query.q.value))); }
    assert forall b :: AllHold(predicates, b) <==> StoredMatch(query, user, b, 0) by { NoneToHold(); }
    var ranges := [(CreatedAt, query.createdFrom, query.createdTo), (UpdatedAt, query.updatedFrom, query.updatedTo)];
    var i := 0;
    while i < |ranges|
      invariant i <= |ranges|
      invariant forall b :: AllHold(predicates, b) <==> StoredMatch(query, user, b, i)
    {
      var (column, lower, upper) := ranges[i];
      if lower.Some? { predicates := Extend(predicates, AtLeast(column, Midnight(lower.value))); }
      if upper.Some? {
        var bound := UpperBound(upper.value);
        if bound.Some? { predicates := Extend(predicates, Before(column, bound.value)); }
      }
      i := i + 1;
    }
    if Usable(query.createdFrom, query.createdTo) && Usable(query.updatedFrom, query.updatedTo) {
      forall b | StoredRow(b) ensures AllHold(predicates, b) <==> Matches(query, user, b) {
        StoredMatchMeans(query, user, b);
      }
    }
  }

  lemma NoneToHold()
    ensures forall b :: AllHold([], b)
  {
  }
}
