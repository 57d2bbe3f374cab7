/**
 What a statistics answer is, in plain terms: counts of sets of rows, tags by count and name, calendar months in order.
 Nothing here is stated through the functions that compute the answers.
 */
module Answers {
  import opened Orders
  import opened Calendar
  import opened Statistics

  // ---------------------------------------------------------------- the plain statement

  function RowsTagged(rows: Table, name: string): set<nat> { set id | id in rows && name in rows[id].tags }

  function RowsOfMonth(rows: Table, year: nat, month: nat): set<nat> {
    set id | id in rows && FromInstant(rows[id].createdAt).year == year
      && FromInstant(rows[id].createdAt).month == month
  }

  /** More often used, or as often and earlier in the alphabet. */
  ghost predicate Outranks(a: TopTag, b: TopTag) {
    a.count > b.count || (a.count == b.count && Precedes(a.name, b.name))
  }

  /** YYYY-MM */
  function MonthText(year: nat, month: nat): string { Pad(year, 4) + "-" + Pad(month, 2) }

  /** The first `limit` tags by count and name, each with the number of rows that carry it. */
  ghost predicate RanksTags(top: seq<TopTag>, rows: Table, limit: nat) {
    && |top| == (var n := |set id, name | id in rows && name in rows[id].tags :: name|; if n <= limit then n else limit)
    && (forall x | x in top :: x.count == |RowsTagged(rows, x.name)| && RowsTagged(rows, x.name) != {})
    && (forall i, j | 0 <= i < j < |top| :: Outranks(top[i], top[j]))
    && (forall x, name | x in top && RowsTagged(rows, name) != {} && (forall y | y in top :: y.name != name) ::
          Outranks(x, TopTag(name, |RowsTagged(rows, name)|)))
  }

  ghost predicate IsMonth(x: MonthCount, rows: Table, year: nat, month: nat) {
    && 1 <= month <= 12 && RowsOfMonth(rows, year, month) != {}
    && x == MonthCount(MonthText(year, month), |RowsOfMonth(rows, year, month)|)
  }

  /** One entry for each month in which a row was created, with the number of those rows, in calendar order. */
  ghost predicate CountsMonths(months: seq<MonthCount>, rows: Table) {
    && (forall x | x in months :: exists year, month :: IsMonth(x, rows, year, month))
    && (forall year, month | RowsOfMonth(rows, year, month) != {} ::
          MonthCount(MonthText(year, month), |RowsOfMonth(rows, year, month)|) in months)
    && (forall i, j, y: nat, m: nat, y': nat, m': nat | 0 <= i < j < |months|
          && y <= 9999 && y' <= 9999 && 1 <= m <= 12 && 1 <= m' <= 12
          && months[i].month == MonthText(y, m) && months[j].month == MonthText(y', m') ::
          y < y' || (y == y' && m < m'))
  }

  /** The answer for these rows; its months are those of the calendar when every year has four digits. */
  ghost predicate Describes(s: Stats, rows: Table, limit: nat) {
    && s.totalBookmarks == |rows|
    && s.totalTags == |set id, name | id in rows && name in rows[id].tags :: name|
    && RanksTags(s.topTags, rows, limit)
    && (FourDigitRows(rows) ==> CountsMonths(s.months, rows))
  }

  /** What the three statements return for these rows of a table, however its tags are numbered and linked. */
  ghost predicate AnswersSql(s: Stats, t: Table, rows: Table, limit: nat) {
    && (forall r: Relations | ValidRelations(r) && r.bookmarks == t ::
          (s.totalBookmarks, s.totalTags) == SqlTotals(rows, r) && s.topTags == SqlTopTags(rows, r, limit))
    && s.months == SqlMonths(rows)
  }

  // ---------------------------------------------------------------- the tags

  lemma RankMeans(a: TopTag, b: TopTag)
    ensures RankLe(a, b) <==> a == b || Outranks(a, b)
  {
    TextLeMeans(a.name, b.name);
    PrecedesStrictly(a.name);
  }

  lemma PrecedesStrictly(a: string)
    ensures !Precedes(a, a)
  {
  }

  lemma TagsAre(rows: Table)
    ensures TagNames(rows) == set id, name | id in rows && name in rows[id].tags :: name
    ensures forall name :: Tagged(rows, name) == RowsTagged(rows, name)
    ensures forall name :: name in TagNames(rows) <==> RowsTagged(rows, name) != {}
  {
    forall name ensures name in TagNames(rows) <==> RowsTagged(rows, name) != {} {
      if id :| id in RowsTagged(rows, name) { assert name in rows[id].tags; }
      if name in TagNames(rows) {
        var id :| id in rows && name in rows[id].tags;
        assert id in RowsTagged(rows, name);
      }
    }
  }

  lemma TagsAreRanked(rows: Table, limit: nat)
    ensures RanksTags(Aggregate(rows, limit).topTags, rows, limit)
  {
    hide Outranks, RankLe, Aggregate, Tagged, RowsTagged;
    var top := Aggregate(rows, limit).topTags;
    TopTagsMeaning(rows, limit);
    TagsAre(rows);
    hide TagNames;
    forall i, j | 0 <= i < j < |top| ensures Outranks(top[i], top[j]) { RankMeans(top[i], top[j]); }
    forall x, name | x in top && RowsTagged(rows, name) != {} && (forall y | y in top :: y.name != name)
      ensures Outranks(x, TopTag(name, |RowsTagged(rows, name)|))
    {
      var y := TopTag(name, |Tagged(rows, name)|);
      assert y in TagEntries(rows);
      assert y !in top;
      RankMeans(x, y);
    }
  }

  // ---------------------------------------------------------------- the months

  /** substr(created_at, 1, 7) is year and month exactly where the year is stored with four digits. */
  lemma MonthOfMeans(b: Bookmark)
    requires Representable(b.createdAt)
    ensures var c := FromInstant(b.createdAt);
      MonthOf(b) == MonthText(c.year, c.month) <==> FourDigits(b.createdAt)
  {
    hide FromInstant;
    var c := FromInstant(b.createdAt);
    YearBound(b.createdAt);
    YearDigits(c.year);
    var text := StoredText(b.createdAt);
    var rest := Layout(Fields(c)[2..], WIDTHS[2..], SEPARATORS[2..]);
    assert Fields(c)[1..][0] == c.month && WIDTHS[1..][0] == 2 && SEPARATORS[1..][0] == '-';
    assert Fields(c)[1..][1..] == Fields(c)[2..] && WIDTHS[1..][1..] == WIDTHS[2..]
      && SEPARATORS[1..][1..] == SEPARATORS[2..];
    assert Layout(Fields(c)[1..], WIDTHS[1..], SEPARATORS[1..]) == Pad(c.month, 2) + ['-'] + rest;
    assert text == YearText(c.year) + ['-'] + (Pad(c.month, 2) + ['-'] + rest);
    if FourDigits(b.createdAt) {
      assert text[..7] == MonthText(c.year, c.month);
    } else {
      var n := |Decimal(c.year)|;
      assert n <= 3 && text[n] == '-';
      assert Pad(c.year, 4)[n] in Pad(c.year, 4) && MonthText(c.year, c.month)[n] == Pad(c.year, 4)[n];
      assert |text| >= 7 ==> text[..7][n] == '-';
    }
  }

  lemma MonthTextOrder(y: nat, m: nat, y': nat, m': nat)
    requires y <= 9999 && y' <= 9999 && 1 <= m <= 12 && 1 <= m' <= 12
    ensures y < y' || (y == y' && m < m')
      ==> TextLe(MonthText(y, m), MonthText(y', m')) && MonthText(y, m) != MonthText(y', m')
  {
    assert Pow10(2) == 100 && Pow10(4) == 100 * Pow10(2);
    if y < y' {
      PadOrder(y, y', 4);
      assert MonthText(y, m) == Pad(y, 4) + ("-" + Pad(m, 2)) && MonthText(y', m') == Pad(y', 4) + ("-" + Pad(m', 2));
      PrefixDecides(Pad(y, 4), Pad(y', 4), "-" + Pad(m, 2), "-" + Pad(m', 2));
    } else if y == y' && m < m' {
      PadOrder(m, m', 2);
      CommonPrefix(Pad(y, 4) + "-", Pad(m, 2), Pad(m', 2));
    }
  }

  lemma MonthTextDiffers(y: nat, m: nat, y': nat, m': nat)
    requires y <= 9999 && y' <= 9999 && 1 <= m <= 12 && 1 <= m' <= 12
    ensures TextLe(MonthText(y, m), MonthText(y', m')) && MonthText(y, m) != MonthText(y', m')
      ==> y < y' || (y == y' && m < m')
  {
    TextTotal(MonthText(y, m), MonthText(y', m'));
    MonthTextOrder(y', m', y, m);
  }

  lemma MonthTextSame(y: nat, m: nat, y': nat, m': nat)
    requires y <= 9999 && y' <= 9999 && 1 <= m <= 12 && 1 <= m' <= 12
    ensures MonthText(y, m) == MonthText(y', m') <==> y == y' && m == m'
  {
    MonthTextOrder(y, m, y', m');
    MonthTextOrder(y', m', y, m);
  }

  /** Grouping by the text is grouping by the calendar. */
  lemma MonthClass(rows: Table, year: nat, month: nat)
    requires FourDigitRows(rows) && year <= 9999 && 1 <= month <= 12
    ensures Class(rows, MonthOf, MonthText(year, month)) == RowsOfMonth(rows, year, month)
  {
    hide MonthOf, FromInstant, MonthText;
    forall id | id in rows
      ensures MonthOf(rows[id]) == MonthText(year, month) <==> id in RowsOfMonth(rows, year, month)
    {
      var c := FromInstant(rows[id].createdAt);
      MonthOfMeans(rows[id]);
      YearBound(rows[id].createdAt);
      MonthTextSame(c.year, c.month, year, month);
    }
  }

  lemma MonthHolds(rows: Table, year: nat, month: nat, id: nat)
    requires FourDigitRows(rows) && id in RowsOfMonth(rows, year, month)
    ensures 1 <= year <= 9999 && 1 <= month <= 12 && MonthOf(rows[id]) == MonthText(year, month)
  {
    hide MonthOf, MonthText;
    MonthOfMeans(rows[id]);
    YearBound(rows[id].createdAt);
  }

  lemma MonthsAreCounted(rows: Table)
    requires FourDigitRows(rows)
    ensures CountsMonths(GroupList(rows, MonthOf), rows)
  {
    hide MonthOf, FromInstant, MonthText, MonthLe, Class, FourDigitRows, GroupList, Ascending;
    var months := GroupList(rows, MonthOf);
    MonthListed(rows);
    forall x | x in months ensures exists year, month :: IsMonth(x, rows, year, month) {
      var id :| id in rows && x == MonthCount(MonthOf(rows[id]), |Class(rows, MonthOf, MonthOf(rows[id]))|);
      var c := FromInstant(rows[id].createdAt);
      assert id in RowsOfMonth(rows, c.year, c.month);
      MonthHolds(rows, c.year, c.month, id);
      MonthClass(rows, c.year, c.month);
      assert IsMonth(x, rows, c.year, c.month);
    }
    forall year, month | RowsOfMonth(rows, year, month) != {}
      ensures MonthCount(MonthText(year, month), |RowsOfMonth(rows, year, month)|) in months
    {
      var id :| id in RowsOfMonth(rows, year, month);
      MonthHolds(rows, year, month, id);
      MonthClass(rows, year, month);
      assert MonthCount(MonthOf(rows[id]), |Class(rows, MonthOf, MonthOf(rows[id]))|) in months;
    }
    forall i, j, y: nat, m: nat, y': nat, m': nat | 0 <= i < j < |months|
      && y <= 9999 && y' <= 9999 && 1 <= m <= 12 && 1 <= m' <= 12
      && months[i].month == MonthText(y, m) && months[j].month == MonthText(y', m')
      ensures y < y' || (y == y' && m < m')
    {
      MonthTextDiffers(y, m, y', m');
    }
  }

  /** What is listed, and that the texts ascend. */
  lemma MonthListed(rows: Table)
    ensures var months := GroupList(rows, MonthOf);
      && (forall x :: x in months <==>
            exists id :: id in rows && x == MonthCount(MonthOf(rows[id]), |Class(rows, MonthOf, MonthOf(rows[id]))|))
      && (forall i, j | 0 <= i < j < |months| ::
            TextLe(months[i].month, months[j].month) && months[i].month != months[j].month)
  {
    hide MonthOf, Class, TextLe;
    var months := GroupList(rows, MonthOf);
    forall i, j | 0 <= i < j < |months|
      ensures TextLe(months[i].month, months[j].month) && months[i].month != months[j].month
    {
      assert months[i] in months && months[j] in months;
      assert MonthLe(months[i], months[j]) && months[i] != months[j];
    }
  }

  // ---------------------------------------------------------------- both readers

  /** Both readers' aggregate is the answer for the rows they select, and what the SQL returns for them. */
  lemma AggregateDescribes(t: Table, rows: Table, limit: nat)
    requires forall id | id in rows :: id in t && rows[id] == t[id]
    ensures Describes(Aggregate(rows, limit), rows, limit) && AnswersSql(Aggregate(rows, limit), t, rows, limit)
  {
    hide RanksTags, CountsMonths, SqlTopTags, SqlTotals, SqlMonths, TagRanking, GroupList,
      FourDigitRows;
    TagsAreRanked(rows, limit);
    if FourDigitRows(rows) { MonthsAreCounted(rows); }
    assert TagNames(rows) == set id, name | id in rows && name in rows[id].tags :: name;
    forall r: Relations | ValidRelations(r) && r.bookmarks == t
      ensures (Aggregate(rows, limit).totalBookmarks, Aggregate(rows, limit).totalTags) == SqlTotals(rows, r)
        && Aggregate(rows, limit).topTags == SqlTopTags(rows, r, limit)
    {
      SqlIsAggregate(rows, r, limit);
    }
    MonthsByRow(rows);
  }

  /** The all-time reader answers for the user's rows. */
  lemma AllTimeDescribes(t: Table, user: nat, limit: nat)
    ensures var rows := map id | id in t && t[id].user == user :: t[id];
      Describes(AllTimeStats(t, user, limit), rows, limit) && AnswersSql(AllTimeStats(t, user, limit), t, rows, limit)
  {
    hide Describes, AnswersSql, Aggregate;
    AggregateDescribes(t, UserRows(t, user), limit);
  }

  /** The weekly reader answers for the user's rows created in the window. */
  lemma WeeklyDescribes(t: Table, user: nat, week: nat, limit: nat)
    ensures var rows := map id | id in t && t[id].user == user
        && WeekStart(week) <= t[id].createdAt < WeekEnd(week) :: t[id];
      && Describes(WeeklyStats(t, user, week, limit), rows, limit)
      && AnswersSql(WeeklyStats(t, user, week, limit), t, rows, limit)
  {
    hide Describes, AnswersSql, Aggregate;
    AggregateDescribes(t, WindowRows(t, user, week), limit);
  }

  // ---------------------------------------------------------------- every table can be stored

  /** Some numbering and linking of tags stores any given table, so the statement about all of them is never empty. */
  lemma RelationsExist(t: Table)
    ensures exists r: Relations :: ValidRelations(r) && r.bookmarks == t
  {
    TextTotalOrder();
    var names := Sort(TagNames(t), TextLe);
    var r := Numbered(t, names);
    NumberedIsValid(t, names);
  }

  /** Tags numbered by their places in a list. */
  function Numbered(t: Table, names: seq<string>): Relations {
    Relations(t, set id, i: nat | id in t && i < |names| && names[i] in t[id].tags :: (id, i),
      map i: nat | i < |names| :: names[i])
  }

  lemma NumberedIsValid(t: Table, names: seq<string>)
    requires Distinct(names) && forall name | name in TagNames(t) :: name in names
    ensures ValidRelations(Numbered(t, names)) && Numbered(t, names).bookmarks == t
  {
    var r := Numbered(t, names);
    forall id | id in t ensures t[id].tags == set l | l in r.links && l.0 == id :: r.tags[l.1] {
      forall name | name in t[id].tags ensures exists l :: l in r.links && l.0 == id && r.tags[l.1] == name {
        assert name in TagNames(t);
        var i :| 0 <= i < |names| && names[i] == name;
        assert (id, i) in r.links;
      }
    }
  }
}
