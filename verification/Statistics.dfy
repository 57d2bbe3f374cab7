/** Bookmark rows, the three aggregate statements, and how weekly aggregates add up to the all-time ones. */
module Statistics {
  import opened Orders
  import opened Calendar

  datatype Bookmark = Bookmark(
    user: nat, url: string, title: string, description: Option<string>, tags: set<string>,
    createdAt: Instant, updatedAt: Instant)

  /** The bookmarks table by id, each row with the names of its linked tags. */
  type Table = map<nat, Bookmark>

  datatype TopTag = TopTag(name: string, count: nat)
  datatype MonthCount = MonthCount(month: string, count: nat)
  datatype Stats = Stats(totalBookmarks: nat, totalTags: nat, topTags: seq<TopTag>, months: seq<MonthCount>)

  function UserRows(t: Table, user: nat): Table { map id | id in t && t[id].user == user :: t[id] }

  function WindowRows(t: Table, user: nat, week: nat): Table {
    map id | id in t && t[id].user == user && WeekStart(week) <= t[id].createdAt < WeekEnd(week) :: t[id]
  }

  /** Every row was created in a year that is stored with four digits. */
  predicate FourDigitRows(t: Table) {
    forall id | id in t :: Representable(t[id].createdAt) && FourDigits(t[id].createdAt)
  }

  /** substr(created_at, 1, 7), year and month. */
  function MonthOf(b: Bookmark): string {
    var text := StoredText(b.createdAt);
    if |text| < 7 then text else text[..7]
  }

  function TagNames(rows: Table): set<string> { set id, n | id in rows && n in rows[id].tags :: n }

  function Tagged(rows: Table, name: string): set<nat> { set id | id in rows && name in rows[id].tags }

  /** The rows a classifying expression puts under one key. */
  function Class<K(==)>(rows: Table, f: Bookmark -> K, key: K): set<nat> { set id | id in rows && f(rows[id]) == key }

  function TagEntries(rows: Table): set<TopTag> { set n | n in TagNames(rows) :: TopTag(n, |Tagged(rows, n)|) }

  /** GROUP BY f with count(*) */
  function GroupEntries(rows: Table, f: Bookmark -> string): set<MonthCount> {
    set id | id in rows :: MonthCount(f(rows[id]), |Class(rows, f, f(rows[id]))|)
  }

  /** ORDER BY count DESC, name ASC */
  predicate RankLe(a: TopTag, b: TopTag) { a.count > b.count || (a.count == b.count && TextLe(a.name, b.name)) }

  /** ORDER BY month ASC */
  predicate MonthLe(a: MonthCount, b: MonthCount) {
    if a.month == b.month then a.count <= b.count else TextLe(a.month, b.month)
  }

  lemma RankOrder()
    ensures TotalOrder(RankLe)
  {
    TextTotalOrder();
  }

  lemma MonthOrder()
    ensures TotalOrder(MonthLe)
  {
    TextTotalOrder();
  }

  function First<T>(s: seq<T>, limit: nat): seq<T> { if |s| <= limit then s else s[..limit] }

  function TagRanking(rows: Table): (list: seq<TopTag>)
    ensures Ascending(list, RankLe)
    ensures |list| == |TagEntries(rows)| && forall x :: x in list <==> x in TagEntries(rows)
  {
    RankOrder();
    Sort(TagEntries(rows), RankLe)
  }

  function GroupList(rows: Table, f: Bookmark -> string): (list: seq<MonthCount>)
    ensures Ascending(list, MonthLe)
    ensures forall x :: x in list <==> x in GroupEntries(rows, f)
  {
    MonthOrder();
    Sort(GroupEntries(rows, f), MonthLe)
  }

  /** What both readers return for the rows their WHERE clause selects. */
  function Aggregate(rows: Table, limit: nat): Stats {
    Stats(|rows|, |TagNames(rows)|, First(TagRanking(rows), limit), GroupList(rows, MonthOf))
  }

  /** BookmarkStatsReader.read */
  function AllTimeStats(t: Table, user: nat, limit: nat): Stats { Aggregate(UserRows(t, user), limit) }

  /** WeeklyStatsReader.read */
  function WeeklyStats(t: Table, user: nat, week: nat, limit: nat): Stats {
    Aggregate(WindowRows(t, user, week), limit)
  }

  // ---------------------------------------------------------------- the SQL over three tables

  /** The stored relations: bookmark rows, (bookmark_id, tag_id) links, and tag names by tag id. */
  datatype Relations = Relations(bookmarks: Table, links: set<(nat, nat)>, tags: map<nat, string>)

  /** Foreign keys of the link table, and the unique constraint on tags.name. */
  ghost predicate ValidRelations(r: Relations) {
    && (forall l | l in r.links :: l.0 in r.bookmarks && l.1 in r.tags)
    && (forall i, j | i in r.tags && j in r.tags && r.tags[i] == r.tags[j] :: i == j)
    && (forall id | id in r.bookmarks :: r.bookmarks[id].tags == set l | l in r.links && l.0 == id :: r.tags[l.1])
  }

  /** bookmarks LEFT JOIN bookmark_tags: one row per link, or one row without a tag. */
  function LeftJoin(rows: Table, links: set<(nat, nat)>): set<(nat, Option<nat>)> {
    (set l | l in links && l.0 in rows :: (l.0, Some(l.1)))
    + (set id | id in rows && (forall l | l in links :: l.0 != id) :: (id, None))
  }

  /** The totals and ranking statements evaluated on the joins, over the selected bookmark rows. */
  function SqlTotals(rows: Table, r: Relations): (nat, nat) {
    var joined := LeftJoin(rows, r.links);
    (|set x | x in joined :: x.0|, |set x | x in joined && x.1.Some? :: x.1.value|)
  }

  function SqlGroup(rows: Table, r: Relations, tag: nat): set<(nat, nat)> {
    set l | l in r.links && l.0 in rows && l.1 == tag
  }

  function SqlEntries(rows: Table, r: Relations): set<TopTag>
    requires forall l | l in r.links :: l.1 in r.tags
  {
    set tag | tag in SqlTags(rows, r) :: TopTag(r.tags[tag], |SqlGroup(rows, r, tag)|)
  }

  function SqlTopTags(rows: Table, r: Relations, limit: nat): seq<TopTag>
    requires forall l | l in r.links :: l.1 in r.tags
  {
    RankOrder();
    First(Sort(SqlEntries(rows, r), RankLe), limit)
  }

  /** The months statement, which joins nothing: one row for each value of its grouping expression. */
  function SqlMonths(rows: Table): seq<MonthCount> {
    MonthOrder();
    Sort(set m | m in MonthsPresent(rows) :: MonthCount(m, |Class(rows, MonthOf, m)|), MonthLe)
  }

  function MonthsPresent(rows: Table): set<string> { set id | id in rows :: MonthOf(rows[id]) }

  lemma {:induction false} SameSize<A, B>(s: set<A>, t: set<B>, f: A --> B)
    requires forall x | x in s :: f.requires(x)
    requires forall x, y | x in s && y in s && f(x) == f(y) :: x == y
    requires t == set x | x in s :: f(x)
    ensures |s| == |t|
  {
    if s != {} {
      var x :| x in s;
      assert t - {f(x)} == set y | y in s - {x} :: f(y);
      SameSize(s - {x}, t - {f(x)}, f);
    }
  }

  ghost predicate Selects(rows: Table, r: Relations) {
    ValidRelations(r) && forall id | id in rows :: id in r.bookmarks && rows[id] == r.bookmarks[id]
  }

  lemma LinkOf(rows: Table, r: Relations, id: nat, name: string) returns (tag: nat)
    requires Selects(rows, r) && id in rows && name in rows[id].tags
    ensures (id, tag) in r.links && tag in r.tags && r.tags[tag] == name
  {
    var l :| l in r.links && l.0 == id && r.tags[l.1] == name;
    tag := l.1;
  }

  lemma GroupSize(rows: Table, r: Relations, tag: nat)
    requires Selects(rows, r) && tag in r.tags
    ensures |SqlGroup(rows, r, tag)| == |Tagged(rows, r.tags[tag])|
  {
    var name := r.tags[tag];
    var group := SqlGroup(rows, r, tag);
    forall id | id in Tagged(rows, name) ensures exists l :: l in group && l.0 == id {
      var linked := LinkOf(rows, r, id, name);
      assert (id, linked) in group;
    }
    forall l | l in group ensures l.0 in Tagged(rows, name) {
      assert r.tags[l.1] in r.bookmarks[l.0].tags;
    }
    assert Tagged(rows, name) == set l | l in group :: l.0;
    SameSize(group, Tagged(rows, name), (l: (nat, nat)) => l.0);
  }

  function SqlTags(rows: Table, r: Relations): set<nat> { set l | l in r.links && l.0 in rows :: l.1 }

  lemma JoinKeepsBookmarks(rows: Table, links: set<(nat, nat)>)
    ensures (set x | x in LeftJoin(rows, links) :: x.0) == rows.Keys
  {
    var joined := LeftJoin(rows, links);
    forall id | id in rows ensures exists x :: x in joined && x.0 == id {
      if l :| l in links && l.0 == id {
        assert (id, Some(l.1)) in joined;
      } else {
        assert (id, None) in joined;
      }
    }
  }

  lemma JoinKeepsTags(rows: Table, r: Relations)
    ensures (set x | x in LeftJoin(rows, r.links) && x.1.Some? :: x.1.value) == SqlTags(rows, r)
  {
    var joined := LeftJoin(rows, r.links);
    forall tag | tag in SqlTags(rows, r) ensures exists x :: x in joined && x.1.Some? && x.1.value == tag {
      var l :| l in r.links && l.0 in rows && l.1 == tag;
      assert (l.0, Some(tag)) in joined;
    }
  }

  lemma TagsByName(rows: Table, r: Relations)
    requires Selects(rows, r)
    ensures TagNames(rows) == set tag | tag in SqlTags(rows, r) :: r.tags[tag]
    ensures |TagNames(rows)| == |SqlTags(rows, r)|
  {
    forall name | name in TagNames(rows) ensures exists tag :: tag in SqlTags(rows, r) && r.tags[tag] == name {
      var id :| id in rows && name in rows[id].tags;
      var tag := LinkOf(rows, r, id, name);
      assert (id, tag) in r.links;
    }
    forall tag | tag in SqlTags(rows, r) ensures r.tags[tag] in TagNames(rows) {
      var l :| l in r.links && l.0 in rows && l.1 == tag;
      assert r.tags[tag] in r.bookmarks[l.0].tags;
    }
    SameSize(SqlTags(rows, r), TagNames(rows), tag requires tag in r.tags => r.tags[tag]);
  }

  lemma MonthsByRow(rows: Table)
    ensures SqlMonths(rows) == GroupList(rows, MonthOf)
  {
    hide MonthOf, Class;
    MonthOrder();
    var entries := set m | m in MonthsPresent(rows) :: MonthCount(m, |Class(rows, MonthOf, m)|);
    assert entries == GroupEntries(rows, MonthOf);
  }

  /** The join fan-out inflates no total, and neither tag ids nor scan order reach the result. */
  lemma SqlIsAggregate(rows: Table, r: Relations, limit: nat)
    requires Selects(rows, r)
    ensures SqlTotals(rows, r) == (Aggregate(rows, limit).totalBookmarks, Aggregate(rows, limit).totalTags)
    ensures SqlTopTags(rows, r, limit) == Aggregate(rows, limit).topTags
    ensures SqlMonths(rows) == Aggregate(rows, limit).months
  {
    MonthsByRow(rows);
    JoinKeepsBookmarks(rows, r.links);
    assert |rows.Keys| == |rows|;
    JoinKeepsTags(rows, r);
    TagsByName(rows, r);
    forall tag | tag in SqlTags(rows, r) ensures |SqlGroup(rows, r, tag)| == |Tagged(rows, r.tags[tag])| {
      GroupSize(rows, r, tag);
    }
    EntriesByTag(rows, r);
  }

  lemma EntriesByTag(rows: Table, r: Relations)
    requires Selects(rows, r)
    ensures SqlEntries(rows, r) == TagEntries(rows)
  {
    TagsByName(rows, r);
    forall tag | tag in SqlTags(rows, r)
      ensures TopTag(r.tags[tag], |SqlGroup(rows, r, tag)|) == TopTag(r.tags[tag], |Tagged(rows, r.tags[tag])|)
    {
      GroupSize(rows, r, tag);
    }
    forall x | x in TagEntries(rows) ensures x in SqlEntries(rows, r) {
      var tag :| tag in SqlTags(rows, r) && r.tags[tag] == x.name;
      assert TopTag(r.tags[tag], |SqlGroup(rows, r, tag)|) == x;
    }
  }

  // ---------------------------------------------------------------- meaning of the lists

  /** top_tags is the first `limit` tags by (count descending, name ascending), with exact counts. */
  lemma TopTagsMeaning(rows: Table, limit: nat)
    ensures var top := Aggregate(rows, limit).topTags;
      && |top| == (if |TagNames(rows)| <= limit then |TagNames(rows)| else limit)
      && Ascending(top, RankLe)
      && (forall x | x in top :: x.name in TagNames(rows) && x.count == |Tagged(rows, x.name)|)
      && (forall x, y | x in top && y in TagEntries(rows) && y !in top :: RankLe(x, y))
  {
    SameSize(TagNames(rows), TagEntries(rows), n => TopTag(n, |Tagged(rows, n)|));
    FirstAreLeast(TagRanking(rows), limit);
  }

  lemma FirstAreLeast(ranking: seq<TopTag>, limit: nat)
    requires Ascending(ranking, RankLe)
    ensures Ascending(First(ranking, limit), RankLe)
    ensures forall x | x in First(ranking, limit) :: x in ranking
    ensures forall x, y | x in First(ranking, limit) && y in ranking && y !in First(ranking, limit) :: RankLe(x, y)
  {
    var top := First(ranking, limit);
    forall k | 0 <= k < |top| ensures ranking[k] in top { assert ranking[k] == top[k]; }
    forall x, y | x in top && y in ranking && y !in top ensures RankLe(x, y) {
      var i :| 0 <= i < |ranking| && ranking[i] == y;
      var j :| 0 <= j < |top| && top[j] == x;
      assert ranking[j] == x && j < i;
    }
  }

  /** The count a month list gives for one month. */
  function CountFor(list: seq<MonthCount>, month: string): nat {
    if list == [] then 0 else (if list[0].month == month then list[0].count else 0) + CountFor(list[1..], month)
  }

  lemma {:induction false} CountForAt(list: seq<MonthCount>, month: string, i: nat)
    requires i < |list| ==> list[i].month == month
    requires forall j | 0 <= j < |list| && j != i :: list[j].month != month
    ensures CountFor(list, month) == if i < |list| then list[i].count else 0
  {
    if list != [] { CountForAt(list[1..], month, if i == 0 then |list| else i - 1); }
  }

  lemma GroupsMeaning(rows: Table, f: Bookmark -> string, month: string)
    ensures CountFor(GroupList(rows, f), month) == |Class(rows, f, month)|
  {
    hide Ascending, TextLe;
    var list := GroupList(rows, f);
    AscendingDiffers(list);
    var entry := MonthCount(month, |Class(rows, f, month)|);
    forall j | 0 <= j < |list| && list[j].month == month ensures list[j] == entry {
      assert list[j] in list;
    }
    if id :| id in Class(rows, f, month) {
      assert entry in GroupEntries(rows, f);
      assert entry in list;
      var i :| 0 <= i < |list| && list[i] == entry;
      CountForAt(list, month, i);
    } else {
      forall j | 0 <= j < |list| ensures list[j].month != month {
        assert list[j] in GroupEntries(rows, f);
        var id :| id in rows && list[j] == MonthCount(f(rows[id]), |Class(rows, f, f(rows[id]))|);
        assert id in Class(rows, f, list[j].month);
      }
      CountForAt(list, month, |list|);
    }
  }

  // ---------------------------------------------------------------- conservation

  function ClassSizes<K(==)>(rows: Table, f: Bookmark -> K, keys: seq<K>): nat {
    if keys == [] then 0 else |Class(rows, f, keys[0])| + ClassSizes(rows, f, keys[1..])
  }

  function Classified<K(==)>(rows: Table, f: Bookmark -> K, keys: seq<K>): set<nat> {
    set id | id in rows && f(rows[id]) in keys
  }

  /** Classifying rows by any function counts each row once. */
  lemma {:induction false} ClassesPartition<K>(rows: Table, f: Bookmark -> K, keys: seq<K>)
    requires Distinct(keys)
    ensures ClassSizes(rows, f, keys) == |Classified(rows, f, keys)|
  {
    if keys != [] {
      var members, rest := Class(rows, f, keys[0]), Classified(rows, f, keys[1..]);
      ClassesPartition(rows, f, keys[1..]);
      forall k: K ensures k in keys <==> k == keys[0] || k in keys[1..] {}
      assert keys[0] !in keys[1..];
      assert Classified(rows, f, keys) == members + rest;
      assert members !! rest;
    }
  }

  function SumTotals(t: Table, user: nat, limit: nat, weeks: seq<nat>): nat {
    if weeks == [] then 0
      else WeeklyStats(t, user, weeks[0], limit).totalBookmarks + SumTotals(t, user, limit, weeks[1..])
  }

  function SumMonth(t: Table, user: nat, limit: nat, weeks: seq<nat>, month: string): nat {
    if weeks == [] then 0 else
      CountFor(WeeklyStats(t, user, weeks[0], limit).months, month) + SumMonth(t, user, limit, weeks[1..], month)
  }

  function SumCounts(list: seq<MonthCount>): nat { if list == [] then 0 else list[0].count + SumCounts(list[1..]) }

  function BookmarkWeek(b: Bookmark): nat { WeekOf(b.createdAt) }

  /** The weeks listed are those in which the user has bookmarks, each once, possibly with empty ones. */
  ghost predicate CoversWeeks(t: Table, user: nat, weeks: seq<nat>) {
    Distinct(weeks) && forall id | id in UserRows(t, user) :: WeekOf(t[id].createdAt) in weeks
  }

  lemma WindowIsClass(t: Table, user: nat, week: nat)
    ensures WindowRows(t, user, week).Keys == Class(UserRows(t, user), BookmarkWeek, week)
    ensures |WindowRows(t, user, week)| == |Class(UserRows(t, user), BookmarkWeek, week)|
  {
    forall id | id in t { WindowsPartition(t[id].createdAt, week); }
    assert |WindowRows(t, user, week)| == |WindowRows(t, user, week).Keys|;
  }

  lemma {:induction false} TotalsAreClasses(t: Table, user: nat, limit: nat, weeks: seq<nat>)
    ensures SumTotals(t, user, limit, weeks) == ClassSizes(UserRows(t, user), BookmarkWeek, weeks)
  {
    if weeks != [] {
      WindowIsClass(t, user, weeks[0]);
      TotalsAreClasses(t, user, limit, weeks[1..]);
    }
  }

  lemma WeekOfGroup(t: Table, user: nat, week: nat, f: Bookmark -> string, key: string)
    ensures Class(WindowRows(t, user, week), f, key) == Class(OfGroup(t, user, f, key), BookmarkWeek, week)
  {
    forall id | id in t { WindowsPartition(t[id].createdAt, week); }
  }

  function OfGroup(t: Table, user: nat, f: Bookmark -> string, key: string): Table {
    map id | id in t && t[id].user == user && f(t[id]) == key :: t[id]
  }

  lemma {:induction false} MonthsAreClasses(
      t: Table, user: nat, limit: nat, weeks: seq<nat>, f: Bookmark -> string, month: string)
    requires f == MonthOf
    ensures SumMonth(t, user, limit, weeks, month) == ClassSizes(OfGroup(t, user, f, month), BookmarkWeek, weeks)
  {
    if weeks != [] {
      GroupsMeaning(WindowRows(t, user, weeks[0]), f, month);
      WeekOfGroup(t, user, weeks[0], f, month);
      MonthsAreClasses(t, user, limit, weeks[1..], f, month);
    }
  }

  lemma {:induction false} CountsAreClasses(
      rows: Table, list: seq<MonthCount>, f: Bookmark -> string, months: seq<string>)
    requires |list| == |months|
    requires forall i | 0 <= i < |list| :: list[i] == MonthCount(months[i], |Class(rows, f, months[i])|)
    ensures SumCounts(list) == ClassSizes(rows, f, months)
  {
    if list != [] { CountsAreClasses(rows, list[1..], f, months[1..]); }
  }

  function MonthsIn(list: seq<MonthCount>): (months: seq<string>)
    ensures |months| == |list| && forall i | 0 <= i < |list| :: months[i] == list[i].month
  {
    seq(|list|, i requires 0 <= i < |list| => list[i].month)
  }

  /** A grouping lists each class once, with its size. */
  lemma GroupListMonths(rows: Table, f: Bookmark -> string)
    ensures var list := GroupList(rows, f); var months := MonthsIn(list);
      && (forall i | 0 <= i < |list| :: list[i] == MonthCount(months[i], |Class(rows, f, months[i])|))
      && Distinct(months) && forall id | id in rows :: f(rows[id]) in months
  {
    hide Class, Ascending, TextLe;
    var list := GroupList(rows, f);
    var months := MonthsIn(list);
    forall i | 0 <= i < |list| ensures list[i] == MonthCount(months[i], |Class(rows, f, months[i])|) {
      assert list[i] in list;
    }
    AscendingDiffers(list);
    forall id | id in rows ensures f(rows[id]) in months {
      var entry := MonthCount(f(rows[id]), |Class(rows, f, f(rows[id]))|);
      assert entry in GroupEntries(rows, f);
      var i :| 0 <= i < |list| && list[i] == entry;
      assert months[i] == f(rows[id]);
    }
  }

  lemma AscendingDiffers(list: seq<MonthCount>)
    requires Ascending(list, MonthLe)
    ensures forall i, j | 0 <= i < j < |list| :: list[i] != list[j]
  {
  }

  /** The counts of a grouping add up to the number of rows grouped. */
  lemma GroupsSum(rows: Table, f: Bookmark -> string)
    ensures SumCounts(GroupList(rows, f)) == |rows|
  {
    hide GroupList, Class, Distinct;
    var list := GroupList(rows, f);
    GroupListMonths(rows, f);
    CountsAreClasses(rows, list, f, MonthsIn(list));
    ClassesPartition(rows, f, MonthsIn(list));
    assert Classified(rows, f, MonthsIn(list)) == rows.Keys;
    assert |rows.Keys| == |rows|;
  }

  lemma WeeksSum(t: Table, user: nat, limit: nat, weeks: seq<nat>)
    requires CoversWeeks(t, user, weeks)
    ensures SumTotals(t, user, limit, weeks) == |UserRows(t, user)|
  {
    var rows := UserRows(t, user);
    TotalsAreClasses(t, user, limit, weeks);
    ClassesPartition(rows, BookmarkWeek, weeks);
    assert Classified(rows, BookmarkWeek, weeks) == rows.Keys;
    assert |rows.Keys| == |rows|;
  }

  /** The all-time total is the sum of its weekly totals, and of its month counts. */
  lemma TotalConserved(t: Table, user: nat, limit: nat, weeks: seq<nat>)
    requires CoversWeeks(t, user, weeks)
    ensures SumTotals(t, user, limit, weeks) == AllTimeStats(t, user, limit).totalBookmarks
    ensures SumCounts(AllTimeStats(t, user, limit).months) == AllTimeStats(t, user, limit).totalBookmarks
  {
    WeeksSum(t, user, limit, weeks);
    GroupsSum(UserRows(t, user), MonthOf);
  }

  /** Each month's all-time count is the sum of its weekly parts. */
  lemma MonthConserved(t: Table, user: nat, limit: nat, weeks: seq<nat>, month: string)
    requires CoversWeeks(t, user, weeks)
    ensures SumMonth(t, user, limit, weeks, month) == CountFor(AllTimeStats(t, user, limit).months, month)
  {
    MonthsAreClasses(t, user, limit, weeks, MonthOf, month);
    GroupConserved(t, user, weeks, MonthOf, month);
  }

  lemma GroupConserved(t: Table, user: nat, weeks: seq<nat>, f: Bookmark -> string, key: string)
    requires CoversWeeks(t, user, weeks)
    ensures ClassSizes(OfGroup(t, user, f, key), BookmarkWeek, weeks) == CountFor(GroupList(UserRows(t, user), f), key)
  {
    var rows := OfGroup(t, user, f, key);
    ClassesPartition(rows, BookmarkWeek, weeks);
    forall id | id in rows ensures BookmarkWeek(rows[id]) in weeks { assert id in UserRows(t, user); }
    assert Classified(rows, BookmarkWeek, weeks) == Class(UserRows(t, user), f, key);
    GroupsMeaning(UserRows(t, user), f, key);
  }

  /** A tag is among the user's tags exactly when it is among those of some listed week. */
  lemma TagsConserved(t: Table, user: nat, weeks: seq<nat>, name: string)
    requires CoversWeeks(t, user, weeks)
    ensures name in TagNames(UserRows(t, user)) <==> exists w :: w in weeks && name in TagNames(WindowRows(t, user, w))
  {
    if name in TagNames(UserRows(t, user)) {
      var id :| id in UserRows(t, user) && name in t[id].tags;
      var w := WeekOf(t[id].createdAt);
      WindowsPartition(t[id].createdAt, w);
      assert id in WindowRows(t, user, w);
      assert w in weeks && name in TagNames(WindowRows(t, user, w));
    }
  }
}
