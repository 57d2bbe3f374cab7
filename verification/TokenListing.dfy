/** The cursor listing end to end: keyset pages reached through signed tokens. */
module TokenListing {
  import opened Calendar
  import opened Statistics
  import opened Json
  import opened Search
  import opened Cursor
  import Paging

  datatype TokenPage = TokenPage(items: seq<Paging.RowKey>, total: nat, page: int, next: Option<string>)

  /** When a request's cursor is decoded, and when the next one is issued. */
  datatype Times = Times(asked: Instant, answered: Instant)

  function ToCursor(b: Boundary): Option<Paging.Cursor> {
    if b.id < 0 || b.page < 0 then None else Some(Paging.Cursor(Paging.RowKey(b.createdAt, b.id), b.page))
  }

  function ToBoundary(cursor: Paging.Cursor): Boundary {
    Boundary(cursor.boundary.createdAt, cursor.boundary.id, cursor.page)
  }

  /** list_cursor; None is an error: an invalid cursor, or a next one that cannot be issued. */
  function ListByToken(
      c: Codec, t: Table, keep: Bookmark -> bool, owner: int, query: Query, token: Option<string>,
        at: Times): Option<TokenPage>
    requires query.pageSize >= 1 && forall id | id in t :: Representable(t[id].createdAt)
  {
    var decoded := if token.None? then None else Decode(c, token.value, owner, query, at.asked);
    if token.Some? && (decoded.None? || ToCursor(decoded.value).None?) then None else
      var cursor := if token.None? then None else ToCursor(decoded.value);
      var listed := Paging.ListCursor(t, keep, query.pageSize, cursor);
      if listed.next.None? then Some(TokenPage(listed.items, listed.total, listed.page, None)) else
        NextIsRow(t, keep, query.pageSize, cursor);
        match Issue(c, owner, query, ToBoundary(listed.next.value), at.answered)
        case None => None
        case Some(next) => Some(TokenPage(listed.items, listed.total, listed.page, Some(next)))
  }

  lemma NextIsRow(t: Table, keep: Bookmark -> bool, size: nat, cursor: Option<Paging.Cursor>)
    requires size >= 1 && Paging.ListCursor(t, keep, size, cursor).next.Some?
    ensures var row := Paging.ListCursor(t, keep, size, cursor).next.value.boundary;
      row.id in t && t[row.id].createdAt == row.createdAt
  {
    hide Paging.KeysetPage, Paging.Beyond;
    var boundary := if cursor.Some? then Some(cursor.value.boundary) else None;
    Paging.PageHolds(t, keep, size, boundary);
    var items := Paging.KeysetPage(t, keep, size, boundary).items;
    assert items[|items| - 1] in items;
  }

  function NextByToken(
      c: Codec, t: Table, keep: Bookmark -> bool, owner: int, query: Query, before: Option<TokenPage>,
        at: Times): Option<TokenPage>
    requires query.pageSize >= 1 && forall id | id in t :: Representable(t[id].createdAt)
  {
    if before.None? || before.value.next.None? then None
    else ListByToken(c, t, keep, owner, query, before.value.next, at)
  }

  /** The page reached by presenting, request after request, the token the one before returned. */
  function FollowTokens(
      c: Codec, t: Table, keep: Bookmark -> bool, owner: int, query: Query, requests: seq<Times>): Option<TokenPage>
    requires query.pageSize >= 1 && requests != [] && forall id | id in t :: Representable(t[id].createdAt)
    decreases |requests|
  {
    var last := requests[|requests| - 1];
    if |requests| == 1 then ListByToken(c, t, keep, owner, query, None, last)
    else NextByToken(c, t, keep, owner, query, FollowTokens(c, t, keep, owner, query, requests[..|requests| - 1]), last)
  }

  predicate Short(n: int) { |NumberText(n)| <= 100 }

  /** Ids are positive, and no number is astronomically large. */
  ghost predicate Ordinary(c: Codec, t: Table, owner: int, query: Query, requests: seq<Times>) {
    && owner >= 1 && query.pageSize >= 1 && Short(query.pageSize)
    && (forall id | id in t :: Representable(t[id].createdAt) && id >= 1 && Short(id))
    && (forall n | 2 <= n <= |requests| + 1 :: Short(n))
    && (forall r | r in requests ::
      r.answered >= Epoch() + 1_000_000 && Short(UnixSeconds(r.answered))
      && Short(UnixSeconds(r.answered) + c.ttl))
  }

  /** Every cursor is presented after it was issued and before it expires. */
  ghost predicate Timely(c: Codec, requests: seq<Times>) {
    forall i | 1 <= i < |requests| ::
      Alive(requests[i - 1].answered, requests[i].asked, c.ttl)
  }

  lemma IssuedIsDecoded(c: Codec, owner: int, query: Query, b: Boundary, at: Instant, now: Instant)
    requires Issuable(owner, query, b) && UnixSeconds(at) >= 1
    requires Short(UnixSeconds(at) + c.ttl) && Short(UnixSeconds(at)) && Short(b.id) && Short(b.page)
      && Short(query.pageSize)
    requires UnixSeconds(at) <= UnixSeconds(now) < UnixSeconds(at) + c.ttl
    ensures Issue(c, owner, query, b, at).Some?
    ensures Decode(c, Issue(c, owner, query, b, at).value, owner, query, now) == Some(b)
  {
    hide Decode, UnixSeconds, NumberText, Representable, Sign, Render, Payload, Values, OwnerTag, FilterTag, Octet,
      Epoch;
    LifeInInstants(at, now, c.ttl);
    DecodeOfIssued(c, owner, query, b, at, owner, query, now);
    TokenFits(c, owner, query, b, at);
  }

  lemma IssuableIsIssued(c: Codec, owner: int, query: Query, b: Boundary, at: Instant)
    requires Issuable(owner, query, b)
    ensures Issue(c, owner, query, b, at).Some?
  {
    hide Sign, Render;
  }

  /** Through tokens that are presented in time, an unchanged table is listed exactly as through offsets. */
  lemma TokensReachOffsetPages(
      c: Codec, t: Table, keep: Bookmark -> bool, owner: int, query: Query, requests: seq<Times>)
    requires requests != [] && Ordinary(c, t, owner, query, requests) && Timely(c, requests)
    ensures var n := |requests|; var reached := FollowTokens(c, t, keep, owner, query, requests);
      var total := Paging.Total(t, keep);
      && (reached.Some? <==> n == 1 || Paging.Offset(n, query.pageSize) < total)
      && (reached.Some? ==>
            && (reached.value.items, reached.value.total) == Paging.OffsetPage(t, keep, n, query.pageSize)
              && reached.value.page == n
            && (reached.value.next.Some? <==> Paging.Offset(n + 1, query.pageSize) < total))
  {
    TokensFollowCursors(c, t, keep, owner, query, requests);
    Paging.CursorPagesAreOffsetPages(t, keep, query.pageSize, |requests|);
  }

  /** The token page matches the cursor page, and its token carries that page's cursor. */
  ghost predicate Carries(
      c: Codec, owner: int, query: Query, reached: TokenPage, page: Paging.CursorPage, answered: Instant)
  {
    && (reached.items, reached.total, reached.page) == (page.items, page.total, page.page)
    && (reached.next.Some? <==> page.next.Some?)
    && (page.next.Some? ==>
          && Issuable(owner, query, ToBoundary(page.next.value)) && Short(page.next.value.boundary.id)
          && page.next.value.page == page.page + 1
          && reached.next == Issue(c, owner, query, ToBoundary(page.next.value), answered))
  }

  /** One request: a token that decodes to a cursor lists what the cursor does. */
  lemma OneRequest(
      c: Codec, t: Table, keep: Bookmark -> bool, owner: int, query: Query,
      token: Option<string>, cursor: Option<Paging.Cursor>, at: Times)
    requires owner >= 1 && query.pageSize >= 1 && OrdinaryRows(t)
    requires token.Some? <==> cursor.Some?
    requires cursor.Some? ==> Decode(c, token.value, owner, query, at.asked) == Some(ToBoundary(cursor.value))
    ensures var reached := ListByToken(c, t, keep, owner, query, token, at);
      reached.Some?
        && Carries(c, owner, query, reached.value, Paging.ListCursor(t, keep, query.pageSize, cursor), at.answered)
  {
    hide Decode, Issue, Short, Representable, Paging.KeysetPage;
    if cursor.Some? { assert ToCursor(ToBoundary(cursor.value)) == cursor; }
    var listed := Paging.ListCursor(t, keep, query.pageSize, cursor);
    if listed.next.Some? {
      NextIsRow(t, keep, query.pageSize, cursor);
      IssuableIsIssued(c, owner, query, ToBoundary(listed.next.value), at.answered);
    }
  }

  /** The token a page carries decodes, in time, to that page's cursor. */
  lemma CarriedTokenDecodes(
      c: Codec, owner: int, query: Query, reached: TokenPage, page: Paging.CursorPage, answered: Instant,
        asked: Instant)
    requires Carries(c, owner, query, reached, page, answered) && page.next.Some? && UnixSeconds(answered) >= 1
    requires Short(UnixSeconds(answered) + c.ttl) && Short(UnixSeconds(answered)) && Short(page.page + 1)
      && Short(query.pageSize)
    requires UnixSeconds(answered) <= UnixSeconds(asked) < UnixSeconds(answered) + c.ttl
    ensures reached.next.Some?
      && Decode(c, reached.next.value, owner, query, asked) == Some(ToBoundary(page.next.value))
  {
    hide Decode, Issue, Short, UnixSeconds, Issuable;
    IssuedIsDecoded(c, owner, query, ToBoundary(page.next.value), answered, asked);
  }

  ghost predicate OrdinaryRows(t: Table) {
    forall id | id in t :: Representable(t[id].createdAt) && id >= 1 && Short(id)
  }

  /** What the request history says of its last two requests and of the ones before. */
  lemma LastRequests(c: Codec, t: Table, owner: int, query: Query, requests: seq<Times>)
    requires |requests| > 1 && Ordinary(c, t, owner, query, requests) && Timely(c, requests)
    ensures var earlier := requests[..|requests| - 1]; Ordinary(c, t, owner, query, earlier) && Timely(c, earlier)
    ensures var answered, asked := requests[|requests| - 2].answered, requests[|requests| - 1].asked;
      && UnixSeconds(answered) >= 1 && Short(UnixSeconds(answered) + c.ttl) && Short(UnixSeconds(answered))
      && UnixSeconds(answered) <= UnixSeconds(asked) < UnixSeconds(answered) + c.ttl
    ensures Short(|requests|) && Short(query.pageSize)
  {
    hide Short, UnixSeconds, Representable, Epoch;
    LifeInInstants(requests[|requests| - 2].answered, requests[|requests| - 1].asked, c.ttl);
    var earlier := requests[..|requests| - 1];
    forall r | r in earlier ensures r in requests {}
    assert requests[|requests| - 2] in requests;
  }

  lemma RowsOf(c: Codec, t: Table, owner: int, query: Query, requests: seq<Times>)
    requires Ordinary(c, t, owner, query, requests)
    ensures owner >= 1 && query.pageSize >= 1 && OrdinaryRows(t) && forall id | id in t ::
      Representable(t[id].createdAt)
  {
    hide Short, UnixSeconds, Representable;
  }

  ghost predicate Agree(
      c: Codec, owner: int, query: Query, reached: Option<TokenPage>, page: Option<Paging.CursorPage>,
        answered: Instant)
  {
    (reached.Some? <==> page.Some?) && (page.Some? ==> Carries(c, owner, query, reached.value, page.value, answered))
  }

  lemma NextAgrees(
      c: Codec, t: Table, keep: Bookmark -> bool, owner: int, query: Query,
      before: Option<TokenPage>, page: Option<Paging.CursorPage>, answered: Instant, at: Times)
    requires owner >= 1 && query.pageSize >= 1 && OrdinaryRows(t) && forall id | id in t ::
      Representable(t[id].createdAt)
    requires Agree(c, owner, query, before, page, answered) && UnixSeconds(answered) >= 1
    requires Short(UnixSeconds(answered) + c.ttl) && Short(UnixSeconds(answered)) && Short(query.pageSize)
    requires page.Some? ==> Short(page.value.page + 1)
    requires UnixSeconds(answered) <= UnixSeconds(at.asked) < UnixSeconds(answered) + c.ttl
    ensures Agree(c, owner, query, NextByToken(c, t, keep, owner, query, before, at),
      Paging.NextPage(t, keep, query.pageSize, page), at.answered)
  {
    hide Decode, Issue, Paging.ListCursor, ListByToken, Short, UnixSeconds, Representable, Carries, OrdinaryRows;
    if page.Some? {
      CarriesNext(c, owner, query, before.value, page.value, answered);
      if page.value.next.Some? {
        CarriedTokenDecodes(c, owner, query, before.value, page.value, answered, at.asked);
        OneRequest(c, t, keep, owner, query, before.value.next, page.value.next, at);
      }
    }
  }

  lemma FirstAgrees(c: Codec, t: Table, keep: Bookmark -> bool, owner: int, query: Query, at: Times)
    requires owner >= 1 && query.pageSize >= 1 && OrdinaryRows(t) && forall id | id in t ::
      Representable(t[id].createdAt)
    ensures Agree(c, owner, query, ListByToken(c, t, keep, owner, query, None, at),
      Some(Paging.ListCursor(t, keep, query.pageSize, None)), at.answered)
  {
    hide ListByToken, Paging.ListCursor, Carries, OrdinaryRows, Representable;
    OneRequest(c, t, keep, owner, query, None, None, at);
  }

  lemma FollowTokensUnfolds(
      c: Codec, t: Table, keep: Bookmark -> bool, owner: int, query: Query,
      requests: seq<Times>)
    requires query.pageSize >= 1 && requests != [] && forall id | id in t :: Representable(t[id].createdAt)
    ensures FollowTokens(c, t, keep, owner, query, requests) ==
      if |requests| == 1 then ListByToken(c, t, keep, owner, query, None, requests[0])
      else NextByToken(c, t, keep, owner, query, FollowTokens(c, t, keep, owner, query, requests[..|requests| - 1]),
        requests[|requests| - 1])
    ensures Paging.Follow(t, keep, query.pageSize, |requests|) ==
      if |requests| == 1 then Some(Paging.ListCursor(t, keep, query.pageSize, None))
      else Paging.NextPage(t, keep, query.pageSize, Paging.Follow(t, keep, query.pageSize, |requests| - 1))
  {
    hide ListByToken, Paging.ListCursor, NextByToken, Paging.NextPage, Representable;
  }

  lemma {:induction false} TokensFollowCursors(
      c: Codec, t: Table, keep: Bookmark -> bool, owner: int, query: Query, requests: seq<Times>)
    requires requests != [] && Ordinary(c, t, owner, query, requests) && Timely(c, requests)
    ensures Agree(c, owner, query, FollowTokens(c, t, keep, owner, query, requests),
      Paging.Follow(t, keep, query.pageSize, |requests|),
                  requests[|requests| - 1].answered)
    decreases |requests|
  {
    hide *;
    RowsOf(c, t, owner, query, requests);
    var n := |requests|;
    FollowTokensUnfolds(c, t, keep, owner, query, requests);
    if n == 1 {
      FirstAgrees(c, t, keep, owner, query, requests[0]);
    } else {
      var earlier := requests[..n - 1];
      LastRequests(c, t, owner, query, requests);
      TokensFollowCursors(c, t, keep, owner, query, earlier);
      var page := Paging.Follow(t, keep, query.pageSize, n - 1);
      Ordinal(t, keep, query.pageSize, n - 1);
      NextAgrees(c, t, keep, owner, query, FollowTokens(c, t, keep, owner, query, earlier), page,
        requests[n - 2].answered, requests[n - 1]);
    }
  }

  lemma Ordinal(t: Table, keep: Bookmark -> bool, size: nat, n: nat)
    requires size >= 1 && n >= 1
    ensures Paging.Follow(t, keep, size, n).Some? ==> Paging.Follow(t, keep, size, n).value.page == n
  {
    hide Paging.Offset, Paging.OffsetPage, Paging.Total, Paging.Listing;
    Paging.CursorPagesAreOffsetPages(t, keep, size, n);
  }

  lemma CarriesNext(c: Codec, owner: int, query: Query, reached: TokenPage, page: Paging.CursorPage, answered: Instant)
    requires Carries(c, owner, query, reached, page, answered)
    ensures reached.next.Some? <==> page.next.Some?
  {
  }
}
