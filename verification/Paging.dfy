/** Offset pages, keyset pages, and what following cursors yields while the table changes. */
module Paging {
  import opened Orders
  import opened Calendar
  import opened Statistics

  /** What the listing is ordered by; the id makes it unique. */
  datatype RowKey = RowKey(createdAt: Instant, id: nat)

  /** ORDER BY created_at DESC, id DESC */
  predicate NewestFirst(a: RowKey, b: RowKey) {
    a.createdAt > b.createdAt || (a.createdAt == b.createdAt && a.id >= b.id)
  }

  lemma NewestFirstOrder()
    ensures TotalOrder(NewestFirst)
  {
  }

  /** The rows a search selects; `keep` stands for the conjunction of its predicates. */
  function Selected(t: Table, keep: Bookmark -> bool): set<RowKey> {
    set id | id in t && keep(t[id]) :: RowKey(t[id].createdAt, id)
  }

  function Descending(keys: set<RowKey>): (list: seq<RowKey>)
    ensures Ascending(list, NewestFirst) && |list| == |keys| && forall k :: k in list <==> k in keys
  {
    NewestFirstOrder();
    Sort(keys, NewestFirst)
  }

  /** list_owned with the search's predicates. */
  function Listing(t: Table, keep: Bookmark -> bool): seq<RowKey> { Descending(Selected(t, keep)) }

  /** The listing holds each selected row once, the newest first and of one instant the highest id first. */
  lemma ListingMeans(t: Table, keep: Bookmark -> bool)
    ensures var list := Listing(t, keep);
      && (forall k :: k in list <==> k.id in t && keep(t[k.id]) && t[k.id].createdAt == k.createdAt)
      && (forall i, j | 0 <= i < j < |list| ::
            list[i].createdAt > list[j].createdAt
            || (list[i].createdAt == list[j].createdAt && list[i].id > list[j].id))
  {
  }

  /** count(*) */
  function Total(t: Table, keep: Bookmark -> bool): nat { |SelectedIds(t, keep)| }

  function SelectedIds(t: Table, keep: Bookmark -> bool): set<nat> { set id | id in t && keep(t[id]) }

  lemma TotalIsListed(t: Table, keep: Bookmark -> bool)
    ensures Total(t, keep) == |Listing(t, keep)|
  {
    var f := (id: nat) requires id in t => RowKey(t[id].createdAt, id);
    assert forall k | k in Selected(t, keep) :: k.id in SelectedIds(t, keep) && f(k.id) == k;
    assert Selected(t, keep) == set id | id in SelectedIds(t, keep) :: f(id);
    SameSize(SelectedIds(t, keep), Selected(t, keep), f);
  }

  function Offset(page: nat, size: nat): nat
    requires page >= 1
  {
    (page - 1) * size
  }

  lemma OffsetNext(page: nat, size: nat)
    requires page >= 1
    ensures Offset(page + 1, size) == Offset(page, size) + size && Offset(1, size) == 0
  {
  }

  /** search_owned */
  function OffsetPage(t: Table, keep: Bookmark -> bool, page: nat, size: nat): (seq<RowKey>, nat)
    requires page >= 1
  {
    TotalIsListed(t, keep);
    var total, offset := Total(t, keep), Offset(page, size);
    if offset >= total then ([], total) else (First(Listing(t, keep)[offset..], size), total)
  }

  /** Page n holds the rows at places (n - 1) * size to n * size of the listing, as far as there are any, with the
      number of all selected rows even when it is empty. */
  lemma OffsetPageMeaning(t: Table, keep: Bookmark -> bool, page: nat, size: nat)
    requires page >= 1
    ensures var (items, total) := OffsetPage(t, keep, page, size); var list := Listing(t, keep);
      && total == |SelectedIds(t, keep)| == |list|
      && (forall id :: id in SelectedIds(t, keep) <==> id in t && keep(t[id]))
      && |items| == (if (page - 1) * size >= |list| then 0
                     else if |list| - (page - 1) * size < size then |list| - (page - 1) * size else size)
      && forall i | 0 <= i < |items| :: items[i] == list[(page - 1) * size + i]
  {
    hide Listing;
    TotalIsListed(t, keep);
    assert Offset(page, size) == (page - 1) * size;
  }

  predicate Beyond(boundary: Option<RowKey>, k: RowKey) {
    boundary.None? || k.createdAt < boundary.value.createdAt
      || (k.createdAt == boundary.value.createdAt && k.id < boundary.value.id)
  }

  function SelectedBeyond(t: Table, keep: Bookmark -> bool, boundary: Option<RowKey>): set<RowKey> {
    set k | k in Selected(t, keep) && Beyond(boundary, k)
  }

  datatype Page = Page(items: seq<RowKey>, total: nat, hasMore: bool)

  /** search_owned_after: one row more than the page is read to learn whether there is another. */
  function KeysetPage(t: Table, keep: Bookmark -> bool, size: nat, boundary: Option<RowKey>): (page: Page)
    ensures page.hasMore && size >= 1 ==> page.items != []
  {
    var rows := First(Descending(SelectedBeyond(t, keep, boundary)), size + 1);
    Page(First(rows, size), Total(t, keep), |rows| > size)
  }

  // ---------------------------------------------------------------- on an unchanged table

  datatype Cursor = Cursor(boundary: RowKey, page: nat)

  datatype CursorPage = CursorPage(items: seq<RowKey>, total: nat, page: nat, next: Option<Cursor>)

  /** list_cursor, with the cursor already decoded and the next one not yet encoded. */
  function ListCursor(t: Table, keep: Bookmark -> bool, size: nat, cursor: Option<Cursor>): CursorPage
    requires size >= 1
  {
    var found := KeysetPage(t, keep, size, if cursor.Some? then Some(cursor.value.boundary) else None);
    var page := if cursor.Some? then cursor.value.page else 1;
    CursorPage(found.items, found.total, page,
               if found.hasMore then Some(Cursor(found.items[|found.items| - 1], page + 1)) else None)
  }

  function NextPage(t: Table, keep: Bookmark -> bool, size: nat, before: Option<CursorPage>): Option<CursorPage>
    requires size >= 1
  {
    if before.None? || before.value.next.None? then None else Some(ListCursor(t, keep, size, before.value.next))
  }

  /** The page reached by following the cursor n - 1 times; None once there is no cursor to follow. */
  function Follow(t: Table, keep: Bookmark -> bool, size: nat, n: nat): Option<CursorPage>
    requires size >= 1 && n >= 1
  {
    if n == 1 then Some(ListCursor(t, keep, size, None)) else NextPage(t, keep, size, Follow(t, keep, size, n - 1))
  }

  lemma BeyondIndex(t: Table, keep: Bookmark -> bool, i: nat)
    requires i < |Listing(t, keep)|
    ensures Descending(SelectedBeyond(t, keep, Some(Listing(t, keep)[i]))) == Listing(t, keep)[i + 1..]
  {
    NewestFirstOrder();
    SortBeyond(Selected(t, keep), SelectedBeyond(t, keep, Some(Listing(t, keep)[i])), NewestFirst, i);
  }

  lemma BeyondNothing(t: Table, keep: Bookmark -> bool)
    ensures SelectedBeyond(t, keep, None) == Selected(t, keep)
  {
  }

  /** The keyset page after the first `done` rows of the listing. */
  lemma KeysetAfter(t: Table, keep: Bookmark -> bool, size: nat, boundary: Option<RowKey>, done: nat)
    requires size >= 1 && done <= |Listing(t, keep)|
    requires boundary == if done == 0 then None else Some(Listing(t, keep)[done - 1])
    ensures var page := KeysetPage(t, keep, size, boundary); var list := Listing(t, keep);
      && page.items == First(list[done..], size) && page.total == |list|
      && (page.hasMore <==> done + size < |list|)
      && (page.hasMore ==> page.items[|page.items| - 1] == list[done + size - 1])
  {
    hide Descending, Selected, SelectedBeyond, Total;
    TotalIsListed(t, keep);
    if done == 0 { BeyondNothing(t, keep); } else { BeyondIndex(t, keep, done - 1); }
    assert Descending(SelectedBeyond(t, keep, boundary)) == Listing(t, keep)[done..];
  }

  /** The page is what offset paging gives for the same ordinal, and leads on exactly while there is more. */
  ghost predicate IsOffsetPage(t: Table, keep: Bookmark -> bool, size: nat, page: CursorPage, n: nat)
    requires n >= 1
  {
    var done := Offset(n + 1, size);
    && (page.items, page.total) == OffsetPage(t, keep, n, size) && page.page == n
    && (page.next.Some? <==> done < Total(t, keep))
    && (page.next.Some? ==>
      0 < done <= |Listing(t, keep)|
      && page.next.value == Cursor(Listing(t, keep)[done - 1], n + 1))
  }

  lemma ListAfter(t: Table, keep: Bookmark -> bool, size: nat, cursor: Option<Cursor>, n: nat)
    requires size >= 1 && n >= 1
    requires if n == 1 then cursor == None
      else 0 < Offset(n, size) < |Listing(t, keep)| && cursor == Some(Cursor(Listing(t, keep)[Offset(n, size) - 1], n))
    ensures IsOffsetPage(t, keep, size, ListCursor(t, keep, size, cursor), n)
  {
    hide Offset, Listing, KeysetPage, Total;
    TotalIsListed(t, keep);
    OffsetNext(n, size);
    KeysetAfter(t, keep, size, if cursor.Some? then Some(cursor.value.boundary) else None, Offset(n, size));
  }

  /** On an unchanged table the n-th cursor page is the n-th offset page, with its total and ordinal, and there is one
      exactly while offset paging has rows for it (or it is the first). */
  lemma {:induction false} CursorPagesAreOffsetPages(t: Table, keep: Bookmark -> bool, size: nat, n: nat)
    requires size >= 1 && n >= 1
    ensures Follow(t, keep, size, n).Some? <==> n == 1 || Offset(n, size) < Total(t, keep)
    ensures Follow(t, keep, size, n).Some? ==> IsOffsetPage(t, keep, size, Follow(t, keep, size, n).value, n)
    decreases n
  {
    hide Offset, Listing, KeysetPage, Total, ListCursor;
    if n == 1 {
      hide IsOffsetPage;
      ListAfter(t, keep, size, None, 1);
    } else {
      CursorPagesAreOffsetPages(t, keep, size, n - 1);
      hide OffsetPage;
      TotalIsListed(t, keep);
      OffsetNext(n - 1, size);
      var before := Follow(t, keep, size, n - 1);
      if before.Some? && before.value.next.Some? { ListAfter(t, keep, size, before.value.next, n); }
    }
  }

  function Concatenated(t: Table, keep: Bookmark -> bool, size: nat, n: nat): seq<RowKey>
    requires size >= 1
  {
    if n == 0 then [] else
      Concatenated(t, keep, size, n - 1)
      + match Follow(t, keep, size, n) case None => [] case Some(page) => page.items
  }

  /** The pages put together are the listing. */
  lemma {:induction false} PagesAreTheListing(t: Table, keep: Bookmark -> bool, size: nat, n: nat)
    requires size >= 1
    ensures Concatenated(t, keep, size, n) == First(Listing(t, keep), Offset(n + 1, size))
  {
    hide Offset, Listing, Follow, Total, KeysetPage, ListCursor;
    OffsetNext(n + 1, size);
    if n > 0 {
      TotalIsListed(t, keep);
      PagesAreTheListing(t, keep, size, n - 1);
      CursorPagesAreOffsetPages(t, keep, size, n);
      OffsetNext(n, size);
      NextSlice(Listing(t, keep), Offset(n, size), size);
    }
  }

  lemma NextSlice(list: seq<RowKey>, k: nat, size: nat)
    ensures First(list, k + size) == First(list, k) + (if k < |list| then First(list[k..], size) else [])
  {
  }

  // ---------------------------------------------------------------- while the table changes

  datatype Walk = Walk(items: seq<RowKey>, boundary: Option<RowKey>, ended: bool)

  /** Following cursors when each page is read from the table as it then stands. */
  function Walked(tables: seq<Table>, keep: Bookmark -> bool, size: nat): Walk
    requires size >= 1
  {
    if tables == [] then Walk([], None, false) else
      var before := Walked(tables[..|tables| - 1], keep, size);
      if before.ended then before else
        var page := KeysetPage(tables[|tables| - 1], keep, size, before.boundary);
        Walk(before.items + page.items,
             if page.hasMore then Some(page.items[|page.items| - 1]) else before.boundary,
             !page.hasMore)
  }

  /** The row is in the table and matches whenever a page is read. */
  ghost predicate Stays(tables: seq<Table>, keep: Bookmark -> bool, k: RowKey) {
    forall i | 0 <= i < |tables| :: k in Selected(tables[i], keep)
  }

  lemma IndexOf(list: seq<RowKey>, k: RowKey) returns (i: nat)
    requires k in list
    ensures i < |list| && list[i] == k
  {
    i :| 0 <= i < |list| && list[i] == k;
  }

  lemma PrefixAscends(list: seq<RowKey>, n: nat)
    requires Ascending(list, NewestFirst)
    ensures Ascending(First(list, n), NewestFirst) && forall k | k in First(list, n) :: k in list
  {
  }

  lemma BeyondLast(list: seq<RowKey>, last: nat, i: nat)
    requires Ascending(list, NewestFirst) && last < i < |list|
    ensures Beyond(Some(list[last]), list[i])
  {
    assert NewestFirst(list[last], list[i]) && list[last] != list[i];
  }

  /** A page holds the selected rows beyond the boundary up to its own last row; the last page holds all of them. */
  lemma PageHolds(t: Table, keep: Bookmark -> bool, size: nat, boundary: Option<RowKey>)
    requires size >= 1
    ensures var page := KeysetPage(t, keep, size, boundary);
      && Ascending(page.items, NewestFirst)
      && (forall k | k in page.items :: k in Selected(t, keep) && Beyond(boundary, k))
      && (page.hasMore ==> page.items != [])
      && (forall k | k in Selected(t, keep) && Beyond(boundary, k) ::
            k in page.items || (page.hasMore && Beyond(Some(page.items[|page.items| - 1]), k)))
  {
    hide Selected, Beyond, Ascending, Total;
    var all := Descending(SelectedBeyond(t, keep, boundary));
    var page := KeysetPage(t, keep, size, boundary);
    assert page.items == First(all, size);
    PrefixAscends(all, size);
    forall k | k in Selected(t, keep) && Beyond(boundary, k)
      ensures k in page.items || (page.hasMore && Beyond(Some(page.items[|page.items| - 1]), k))
    {
      assert k in all;
      var i := IndexOf(all, k);
      if i < |page.items| {
        assert page.items[i] == k;
      } else {
        BeyondLast(all, size - 1, i);
      }
    }
  }

  ghost predicate WalkSound(w: Walk, tables: seq<Table>, keep: Bookmark -> bool) {
    && Ascending(w.items, NewestFirst)
    && (!w.ended ==> w.boundary == if w.items == [] then None else Some(w.items[|w.items| - 1]))
    && (!w.ended && tables != [] ==> w.items != [])
    && (forall k | k in w.items :: exists i :: 0 <= i < |tables| && k in Selected(tables[i], keep))
    && (forall k | Stays(tables, keep, k) && k !in w.items :: !w.ended && Beyond(w.boundary, k))
  }

  lemma JoinAscending(a: seq<RowKey>, b: seq<RowKey>)
    requires Ascending(a, NewestFirst) && Ascending(b, NewestFirst)
    requires a != [] ==> forall k | k in b :: Beyond(Some(a[|a| - 1]), k)
    ensures Ascending(a + b, NewestFirst)
  {
    forall i, j | 0 <= i < j < |a + b| ensures NewestFirst((a + b)[i], (a + b)[j]) && (a + b)[i] != (a + b)[j] {
      if i < |a| <= j { assert b[j - |a|] in b; }
    }
  }

  lemma {:induction false} WalkIsSound(tables: seq<Table>, keep: Bookmark -> bool, size: nat)
    requires size >= 1
    ensures WalkSound(Walked(tables, keep, size), tables, keep)
  {
    hide Ascending, Selected, Beyond, KeysetPage;
    if tables == [] {
      EmptyAscends();
    } else {
      var earlier, last := tables[..|tables| - 1], tables[|tables| - 1];
      WalkIsSound(earlier, keep, size);
      var before, after := Walked(earlier, keep, size), Walked(tables, keep, size);
      forall k | Stays(tables, keep, k) ensures Stays(earlier, keep, k) && k in Selected(last, keep) {}
      forall k, i | 0 <= i < |earlier| && k in Selected(earlier[i], keep) ensures k in Selected(tables[i], keep) {}
      if !before.ended {
        PageHolds(last, keep, size, before.boundary);
        JoinAscending(before.items, KeysetPage(last, keep, size, before.boundary).items);
      }
    }
  }

  lemma EmptyAscends()
    ensures Ascending([], NewestFirst)
    ensures forall k :: Beyond(None, k)
  {
  }

  /** However the table changes between pages, no key is yielded twice, every key yielded was selected when its page
      was read, and a walk that has run to its end has yielded every row that stayed. */
  lemma WalkUnderChange(tables: seq<Table>, keep: Bookmark -> bool, size: nat)
    requires size >= 1
    ensures var w := Walked(tables, keep, size);
      && (forall i, j | 0 <= i < j < |w.items| ::
            w.items[i].createdAt > w.items[j].createdAt
            || (w.items[i].createdAt == w.items[j].createdAt && w.items[i].id > w.items[j].id))
      && (forall k | k in w.items :: exists i :: 0 <= i < |tables| && k in Selected(tables[i], keep))
      && (w.ended ==> forall k | Stays(tables, keep, k) :: k in w.items)
  {
    WalkIsSound(tables, keep, size);
  }

  /** What a walk over an unchanged table has come to when its pages were to hold `done` rows. */
  ghost predicate WalkedTo(w: Walk, list: seq<RowKey>, done: nat) {
    && w.items == First(list, done)
    && (w.ended <==> done > 0 && |list| <= done)
    && (!w.ended ==>
          if done == 0 then w.boundary == None else 0 < done < |list| && w.boundary == Some(list[done - 1]))
  }

  /** While the table stays as it is, n pages yield the first n * size rows of the listing, and the walk has ended
      exactly when that is all of them. */
  lemma {:induction false} WalkOfFixed(t: Table, tables: seq<Table>, keep: Bookmark -> bool, size: nat)
    requires size >= 1 && forall i | 0 <= i < |tables| :: tables[i] == t
    ensures WalkedTo(Walked(tables, keep, size), Listing(t, keep), |tables| * size)
  {
    hide Listing, KeysetPage, WalkedTo;
    var n := |tables|;
    if n == 0 {
      NoPages(Listing(t, keep));
    } else {
      WalkOfFixed(t, tables[..n - 1], keep, size);
      assert n * size == (n - 1) * size + size;
      OnePageMore(t, keep, size, Walked(tables[..n - 1], keep, size), (n - 1) * size);
    }
  }

  lemma NoPages(list: seq<RowKey>)
    ensures WalkedTo(Walk([], None, false), list, 0)
  {
  }

  lemma OnePageMore(t: Table, keep: Bookmark -> bool, size: nat, before: Walk, done: nat)
    requires size >= 1 && WalkedTo(before, Listing(t, keep), done)
    ensures var page := KeysetPage(t, keep, size, before.boundary);
      WalkedTo(
        if before.ended then before
        else Walk(before.items + page.items,
                  if page.hasMore then Some(page.items[|page.items| - 1]) else before.boundary, !page.hasMore),
        Listing(t, keep), done + size)
  {
    hide Listing, KeysetPage, Total;
    if !before.ended { OnePageOn(t, keep, size, before, done); }
  }

  lemma OnePageOn(t: Table, keep: Bookmark -> bool, size: nat, before: Walk, done: nat)
    requires size >= 1 && !before.ended && before.items == First(Listing(t, keep), done)
    requires if done == 0 then before.boundary == None
      else done < |Listing(t, keep)| && before.boundary == Some(Listing(t, keep)[done - 1])
    ensures var list := Listing(t, keep); var page := KeysetPage(t, keep, size, before.boundary);
      && before.items + page.items == First(list, done + size) && (page.hasMore <==> done + size < |list|)
      && (page.hasMore ==> page.items != [] && page.items[|page.items| - 1] == list[done + size - 1])
  {
    hide Listing, KeysetPage, Total;
    KeysetAfter(t, keep, size, before.boundary, done);
    NextSlice(Listing(t, keep), done, size);
  }

  // ---------------------------------------------------------------- the tags of a page

  type Link = (nat, string)

  /** ORDER BY bookmark_id, name */
  predicate LinkLe(a: Link, b: Link) { a.0 < b.0 || (a.0 == b.0 && TextLe(a.1, b.1)) }

  lemma LinkOrder()
    ensures TotalOrder(LinkLe)
  {
    TextTotalOrder();
  }

  predicate IsLink(t: Table, user: nat, ids: seq<nat>, l: Link) {
    l.0 in ids && l.0 in t && t[l.0].user == user && l.1 in t[l.0].tags
  }

  function LinkRows(t: Table, user: nat, ids: seq<nat>): (rows: seq<Link>)
    ensures Ascending(rows, LinkLe) && forall l :: l in rows <==> IsLink(t, user, ids, l)
  {
    LinkOrder();
    Sort(set id, n | id in t && n in t[id].tags && IsLink(t, user, ids, (id, n)) :: (id, n), LinkLe)
  }

  /** What the loop has collected after `i` rows. */
  ghost predicate Collected(names: map<nat, seq<string>>, rows: seq<Link>, i: nat, ids: seq<nat>)
    requires i <= |rows|
  {
    && (forall id :: id in names <==> id in ids)
    && (forall id | id in names :: Ascending(names[id], TextLe))
    && (forall id, n | id in names && n in names[id] :: (id, n) in rows[..i])
    && (forall l | l in rows[..i] :: l.0 in names && l.1 in names[l.0])
  }

  lemma CollectsNext(names: map<nat, seq<string>>, rows: seq<Link>, i: nat, ids: seq<nat>)
    requires i < |rows| && Ascending(rows, LinkLe) && (forall l | l in rows :: l.0 in ids)
    requires Collected(names, rows, i, ids)
    ensures rows[i].0 in names && Collected(names[rows[i].0 := names[rows[i].0] + [rows[i].1]], rows, i + 1, ids)
  {
    var (id, n) := rows[i];
    assert rows[i] in rows;
    assert rows[..i + 1] == rows[..i] + [rows[i]];
    var more := names[id] + [n];
    forall m | m in names[id] ensures TextLe(m, n) && m != n {
      var j :| 0 <= j < i && rows[..i][j] == (id, m);
      assert LinkLe(rows[j], rows[i]) && rows[j] != rows[i];
    }
    assert Ascending(more, TextLe) by {
      forall j, k | 0 <= j < k < |more| ensures TextLe(more[j], more[k]) && more[j] != more[k] {
        if k == |names[id]| { assert names[id][j] in names[id]; }
      }
    }
  }

  /** _tag_names_for_bookmarks: each bookmark's own tags, once each and in order; none for one of another user. */
  method TagNames(t: Table, user: nat, ids: seq<nat>) returns (names: map<nat, seq<string>>)
    ensures forall id :: id in names <==> id in ids
    ensures forall id | id in names :: Ascending(names[id], TextLe)
    ensures forall id | id in names :: forall n :: n in names[id] <==> id in t && t[id].user == user && n in t[id].tags
  {
    hide Collected, Ascending;
    names := map id | id in ids :: [];
    var rows := LinkRows(t, user, ids);
    assert Collected(names, rows, 0, ids) by { NothingCollected(names, rows, ids); }
    var i := 0;
    while i < |rows|
      invariant i <= |rows| && Collected(names, rows, i, ids)
    {
      CollectsNext(names, rows, i, ids);
      names := names[rows[i].0 := names[rows[i].0] + [rows[i].1]];
      i := i + 1;
    }
    AllCollected(names, rows, ids);
    forall id, n | id in names ensures n in names[id] <==> id in t && t[id].user == user && n in t[id].tags {
      assert (id, n) in rows <==> IsLink(t, user, ids, (id, n));
    }
  }

  lemma NothingCollected(names: map<nat, seq<string>>, rows: seq<Link>, ids: seq<nat>)
    requires (forall id :: id in names <==> id in ids) && forall id | id in names :: names[id] == []
    ensures Collected(names, rows, 0, ids)
  {
  }

  lemma AllCollected(names: map<nat, seq<string>>, rows: seq<Link>, ids: seq<nat>)
    requires Collected(names, rows, |rows|, ids)
    ensures (forall id :: id in names <==> id in ids) && (forall id | id in names :: Ascending(names[id], TextLe))
    ensures forall id | id in names :: forall n :: n in names[id] <==> (id, n) in rows
  {
    assert rows[..|rows|] == rows;
    forall id, n | id in names && (id, n) in rows ensures n in names[id] {}
  }
}
