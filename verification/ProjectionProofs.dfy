/** What every reachable state of the projection protocol satisfies. */
module ProjectionProofs {
  import opened Orders
  import opened Calendar
  import opened Statistics
  import opened Dirty
  import opened Projection

  // ---------------------------------------------------------------- the invariant

  /** The row readers would see for a key: its highest-revision point, else its working row. */
  function EffectiveRow(s: Store, k: Key): Option<Calculation> {
    match EffectivePoint(s.points, k)
    case Some(p) => Some(p.calculation)
    case None => if k in s.working then Some(s.working[k]) else None
  }

  ghost predicate HasBookmarks(s: Store, k: Key) { WindowRows(s.bookmarks, k.user, k.week) != map[] }

  /** The keys whose projection the baseline has taken charge of. */
  ghost predicate Covered(s: Store, k: Key) {
    && s.baseline.Some?
    && (s.baseline.value.status == Active
        || (s.baseline.value.checkpoint.Some? && KeyLe(k, s.baseline.value.checkpoint.value)))
  }

  /** The effective row is the live weekly payload, or there is neither a row nor a bookmark. */
  ghost predicate UpToDate(s: Store, k: Key) {
    match EffectiveRow(s, k)
    case Some(c) => s.baseline.Some? && c == Calculate(s.bookmarks, s.baseline.value.version, k)
    case None => !HasBookmarks(s, k)
  }

  ghost predicate Linked(before: seq<Point>, p: Point) {
    && p.id == |before| + 1
    && match EffectivePoint(before, p.key)
       case None => p.revision == 1 && p.supersedes == None
       case Some(q) =>
         p.revision == q.revision + 1 && p.supersedes == Some(q.id)
         && p.calculation.payload != q.calculation.payload
  }

  /** Every point was linked to what was effective when it was inserted. */
  ghost predicate Chained(points: seq<Point>) {
    points == [] || (Chained(points[..|points| - 1]) && Linked(points[..|points| - 1], points[|points| - 1]))
  }

  ghost predicate SoundRows(s: Store, now: Instant) {
    && Chained(s.points)
    && (forall p | p in s.points :: WeekEnd(p.key.week) <= now)
    && (forall k | k in s.working :: EffectivePoint(s.points, k).None? && WeekStart(k.week) <= now)
    && (forall k | EffectiveRow(s, k).Some? ::
      Covered(s, k)
      && EffectiveRow(s, k).value.version == s.baseline.value.version)
  }

  ghost predicate SoundSources(s: Store, now: Instant) {
    && ValidTable(s.dirty)
    && (forall id | id in s.bookmarks :: s.bookmarks[id].user in s.users && s.bookmarks[id].createdAt <= now)
    && (forall k | k in s.dirty :: WeekStart(k.week) <= now)
  }

  ghost predicate Projected(s: Store) {
    forall k | Covered(s, k) && !PendingFor(s.dirty, Consumer.Projection, k) :: UpToDate(s, k)
  }

  ghost predicate Invariant(m: Moment) {
    SoundSources(m.store, m.now) && SoundRows(m.store, m.now) && Projected(m.store)
  }

  /** Before the projection is first enabled: no projection rows, any bookmarks, any markers left by the current
      consumer. */
  ghost predicate Initial(m: Moment) {
    && SoundSources(m.store, m.now)
    && m.store.working == map[] && m.store.points == [] && m.store.baseline == None
  }

  // ---------------------------------------------------------------- points

  lemma EffectiveAfterAppend(points: seq<Point>, p: Point, k: Key)
    ensures EffectivePoint(points + [p], k) ==
      if p.key == k && (EffectivePoint(points, k).None? || EffectivePoint(points, k).value.revision <= p.revision)
      then Some(p) else EffectivePoint(points, k)
  {
    assert (points + [p])[..|points|] == points;
  }

  lemma {:induction false} EffectiveIsPoint(points: seq<Point>, k: Key)
    ensures match EffectivePoint(points, k)
      case Some(p) => p in points && p.key == k
      case None => forall p | p in points :: p.key != k
  {
    if points != [] {
      EffectiveIsPoint(points[..|points| - 1], k);
      assert points == points[..|points| - 1] + [points[|points| - 1]];
    }
  }

  lemma {:induction false} RevisionsPositive(points: seq<Point>, k: Key)
    requires Chained(points)
    ensures EffectivePoint(points, k).Some? ==> EffectivePoint(points, k).value.revision >= 1
  {
    if points != [] { RevisionsPositive(points[..|points| - 1], k); }
  }

  lemma AppendEffect(points: seq<Point>, p: Point)
    requires Chained(points) && Linked(points, p)
    ensures Chained(points + [p])
    ensures forall j :: EffectivePoint(points + [p], j) == if j == p.key then Some(p) else EffectivePoint(points, j)
  {
    assert (points + [p])[..|points|] == points;
    forall j { EffectiveAfterAppend(points, p, j); }
  }

  /** Persisting a closed week makes the calculation effective and touches no other key's history. */
  lemma PersistEffect(points: seq<Point>, k: Key, c: Calculation)
    requires Chained(points)
    requires EffectivePoint(points, k).Some? ==> EffectivePoint(points, k).value.calculation.version == c.version
    ensures PersistDeveloped(points, k, c).Ok?
    ensures var after := PersistDeveloped(points, k, c).value;
      && points <= after && Chained(after)
      && EffectivePoint(after, k).Some? && EffectivePoint(after, k).value.calculation == c
      && (forall j | j != k :: EffectivePoint(after, j) == EffectivePoint(points, j))
      && (forall p | p in after :: p in points || p.key == k)
  {
    hide Chained;
    RevisionsPositive(points, k);
    var p := match EffectivePoint(points, k)
      case None => Point(|points| + 1, k, 1, None, c)
      case Some(q) => Point(|points| + 1, k, q.revision + 1, Some(q.id), c);
    if Linked(points, p) {
      AppendEffect(points, p);
      assert PersistDeveloped(points, k, c) == Ok(points + [p]);
    }
  }

  // ---------------------------------------------------------------- the projection steps

  ghost predicate ActiveAt(s: Store, version: nat) {
    s.baseline.Some? && s.baseline.value.status == Active && s.baseline.value.version == version
  }

  /** Rows of `after` that differ from `before` hold the live payload, and only for key `k` was something replaced. */
  ghost predicate RowsRenewed(before: Store, after: Store, version: nat, k: Key) {
    && EffectiveRow(after, k) == Some(Calculate(before.bookmarks, version, k))
    && forall j | j != k ::
         EffectiveRow(after, j) == EffectiveRow(before, j)
         || (EffectiveRow(before, j).None? && EffectiveRow(after, j) == Some(Calculate(before.bookmarks, version, j)))
  }

  ghost predicate OnlyRowsChange(before: Store, after: Store) {
    after.(working := before.working, points := before.points) == before && before.points <= after.points
  }

  lemma CloseEffect(s: Store, k: Key, c: Calculation, now: Instant)
    requires SoundRows(s, now) && Covered(s, k) && WeekEnd(k.week) <= now && c.version == s.baseline.value.version
    ensures PersistDeveloped(s.points, k, c).Ok?
    ensures var after := s.(points := PersistDeveloped(s.points, k, c).value, working := s.working - {k});
      && SoundRows(after, now) && s.points <= after.points
      && forall j :: EffectiveRow(after, j) == if j == k then Some(c) else EffectiveRow(s, j)
  {
    hide Chained, PersistDeveloped, EffectivePoint;
    assert EffectiveRow(s, k).Some? ==> EffectiveRow(s, k).value.version == c.version;
    PersistEffect(s.points, k, c);
    var after := s.(points := PersistDeveloped(s.points, k, c).value, working := s.working - {k});
    forall j ensures EffectiveRow(after, j) == if j == k then Some(c) else EffectiveRow(s, j) {}
  }

  lemma OpenEffect(s: Store, k: Key, c: Calculation, now: Instant)
    requires SoundRows(s, now) && Covered(s, k) && WeekStart(k.week) <= now < WeekEnd(k.week)
      && c.version == s.baseline.value.version
    ensures k in s.working ==> s.working[k].version == c.version
    ensures EffectiveRow(s, k) == if k in s.working then Some(s.working[k]) else None
    ensures var after := s.(working := s.working[k := c]);
      && SoundRows(after, now)
      && forall j :: EffectiveRow(after, j) == if j == k then Some(c) else EffectiveRow(s, j)
  {
    hide Chained;
    EffectiveIsPoint(s.points, k);
    assert k in s.working ==> EffectiveRow(s, k) == Some(s.working[k]);
    var after := s.(working := s.working[k := c]);
    forall j ensures EffectiveRow(after, j) == if j == k then Some(c) else EffectiveRow(s, j) {}
  }

  /** The user's present week. */
  ghost predicate OpensNow(s: Store, user: nat, j: Key, now: Instant) {
    user in s.users && j.user == user && WeekStart(j.week) <= now < WeekEnd(j.week)
  }

  /** Closing a week cannot fail from a sound state. It makes the live payload its effective row and drops its working
      row; afterwards the user, if there is one, has a working row for the present week. */
  lemma DevelopEffect(s: Store, version: nat, k: Key, now: Instant)
    requires SoundRows(s, now) && ActiveAt(s, version) && WeekEnd(k.week) <= now
    ensures Develop(s, version, k, now).Ok?
    ensures var after := Develop(s, version, k, now).value;
      && OnlyRowsChange(s, after) && SoundRows(after, now) && RowsRenewed(s, after, version, k)
      && k !in after.working && EffectivePoint(after.points, k).Some?
      && (forall j | j != k && j in s.working :: j in after.working && after.working[j] == s.working[j])
      && (forall j | j in after.working :: j in s.working || OpensNow(s, k.user, j, now))
      && (k.user in s.users ==> exists j :: j in after.working && OpensNow(s, k.user, j, now))
  {
    hide Chained, WeeklyStats, PersistDeveloped, EffectivePoint;
    var c := Calculate(s.bookmarks, version, k);
    CloseEffect(s, k, c, now);
    var closed := s.(points := PersistDeveloped(s.points, k, c).value, working := s.working - {k});
    var current := Key(k.user, WeekOf(now));
    WindowsPartition(now, current.week);
    OpenEffect(closed, current, Calculate(s.bookmarks, version, current), now);
    if k.user in s.users { assert OpensNow(s, k.user, current, now); }
  }

  lemma RefreshEffect(s: Store, version: nat, k: Key, now: Instant)
    requires SoundRows(s, now) && ActiveAt(s, version) && WeekStart(k.week) <= now
    ensures Refresh(s, version, k, now).Ok?
    ensures var after := Refresh(s, version, k, now).value;
      OnlyRowsChange(s, after) && SoundRows(after, now) && RowsRenewed(s, after, version, k)
  {
    hide Chained, WeeklyStats, Develop, SoundRows;
    if WeekEnd(k.week) <= now {
      DevelopEffect(s, version, k, now);
    } else {
      OpenEffect(s, k, Calculate(s.bookmarks, version, k), now);
    }
  }

  /** From an active state, process_dirty is refused only for another version or a week still to come;
      otherwise it is applied exactly for the marker's current generation. */
  lemma ProcessDirtyEffect(m: Moment, version: nat, k: Key, g: nat)
    requires Invariant(m) && ActiveAt(m.store, version) && WeekStart(k.week) <= m.now
    ensures var o := ProcessDirty(m.store, version, k, g, m.now);
      && (o.Applied? <==> k in m.store.dirty && m.store.dirty[k].generation == g)
      && (!o.Applied? ==> o == Outcome.Stale)
      && (o.Applied? ==>
            && Invariant(Moment(o.store, m.now))
            && UpToDate(o.store, k) && EffectiveRow(o.store, k).Some?
              && !PendingFor(o.store.dirty, Consumer.Projection, k)
            && OnlyRowsChange(m.store.(dirty := Acknowledge(m.store.dirty, Consumer.Projection, k, g).0), o.store))
  {
    hide Chained, WeeklyStats, Refresh;
    var s := m.store;
    RefreshEffect(s, version, k, m.now);
    AcknowledgeEffect(s.dirty, Consumer.Projection, k, g);
    var o := ProcessDirty(s, version, k, g, m.now);
    if o.Applied? {
      var refreshed := Refresh(s, version, k, m.now).value;
      assert o.store == refreshed.(dirty := o.store.dirty);
      forall j ensures EffectiveRow(o.store, j) == EffectiveRow(refreshed, j)
        && Covered(o.store, j) == Covered(refreshed, j) {}
      assert SoundRows(o.store, m.now);
      RenewedIsProjected(s, o.store, version, k);
    }
  }

  lemma RenewedIsProjected(s: Store, after: Store, version: nat, k: Key)
    requires Projected(s) && ActiveAt(s, version) && RowsRenewed(s, after, version, k)
    requires after.bookmarks == s.bookmarks && after.baseline == s.baseline
    requires forall j | j != k ::
      PendingFor(after.dirty, Consumer.Projection, j) == PendingFor(s.dirty, Consumer.Projection, j)
    ensures Projected(after)
  {
    hide WeeklyStats;
    forall j | Covered(after, j) && !PendingFor(after.dirty, Consumer.Projection, j) ensures UpToDate(after, j) {
      if j != k { assert UpToDate(s, j); }
    }
  }

  /** process_overdue finalises an ended week exactly when it still has a working row and nothing pending. */
  lemma ProcessOverdueEffect(m: Moment, version: nat, k: Key)
    requires Invariant(m) && ActiveAt(m.store, version)
    ensures var o := ProcessOverdue(m.store, version, k, m.now);
      && (o.Applied? <==>
        k in m.store.working && WeekEnd(k.week) <= m.now
        && !PendingFor(m.store.dirty, Consumer.Projection, k))
      && (o.Refused? <==> k in m.store.working && WeekEnd(k.week) > m.now)
      && (o.Applied? ==>
            && Invariant(Moment(o.store, m.now))
            && EffectiveRow(o.store, k) == EffectiveRow(m.store, k) && k !in o.store.working
            && OnlyRowsChange(m.store, o.store))
  {
    hide Chained, WeeklyStats, Develop;
    var s := m.store;
    if k in s.working { assert EffectiveRow(s, k).Some?; }
    var o := ProcessOverdue(s, version, k, m.now);
    if k in s.working && WeekEnd(k.week) <= m.now && !PendingFor(s.dirty, Consumer.Projection, k) {
      DevelopEffect(s, version, k, m.now);
      RenewedIsProjected(s, o.store, version, k);
      assert UpToDate(s, k);
    }
  }

  // ---------------------------------------------------------------- the baseline

  lemma BookmarksOfKey(t: Table, k: Key)
    ensures WindowRows(t, k.user, k.week) != map[] <==> exists id :: id in t && KeyOf(t[id]) == k
  {
    forall id | id in t { WindowsPartition(t[id].createdAt, k.week); }
    if id :| id in t && KeyOf(t[id]) == k { assert id in WindowRows(t, k.user, k.week); }
    if WindowRows(t, k.user, k.week) != map[] {
      var id :| id in WindowRows(t, k.user, k.week);
      assert KeyOf(t[id]) == k;
    }
  }

  function WithRows(s: Store, rows: Rows): Store { s.(working := rows.working, points := rows.points) }

  /** A page of new keys, all in the baseline's charge, gets exactly its live rows. */
  lemma {:induction false} PageEffect(s: Store, page: seq<Key>, now: Instant)
    requires SoundRows(s, now) && s.baseline.Some? && Distinct(page)
    requires forall k | k in page :: Covered(s, k) && EffectiveRow(s, k).None? && WeekStart(k.week) <= now
    ensures var r := PersistPage(s.bookmarks, Rows(s.working, s.points), s.baseline.value.version, page, now);
      && r.Ok? && s.points <= r.value.points && SoundRows(WithRows(s, r.value), now)
      && forall j :: EffectiveRow(WithRows(s, r.value), j) ==
           if j in page then Some(Calculate(s.bookmarks, s.baseline.value.version, j)) else EffectiveRow(s, j)
  {
    hide Chained, WeeklyStats, EffectivePoint;
    if page != [] {
      var before, k := page[..|page| - 1], page[|page| - 1];
      assert page == before + [k];
      PageEffect(s, before, now);
      var version := s.baseline.value.version;
      var rows := PersistPage(s.bookmarks, Rows(s.working, s.points), version, before, now).value;
      var c := Calculate(s.bookmarks, version, k);
      assert k !in before;
      assert Covered(WithRows(s, rows), k) && EffectiveRow(WithRows(s, rows), k).None?;
      if WeekEnd(k.week) <= now {
        CloseEffect(WithRows(s, rows), k, c, now);
        assert rows.working - {k} == rows.working;
      } else {
        OpenEffect(WithRows(s, rows), k, c, now);
      }
    }
  }

  lemma RemainingKeys(t: Table, checkpoint: Option<Key>, k: Key)
    ensures k in Candidates(t, checkpoint) <==>
      (exists id :: id in t && KeyOf(t[id]) == k) && (checkpoint.None? || !KeyLe(k, checkpoint.value))
  {
    KeyOrder();
  }

  /** A prefix of an ascending list holds exactly the elements up to its last. */
  lemma PrefixOfAscending(list: seq<Key>, page: seq<Key>)
    requires Ascending(list, KeyLe) && page <= list && page != []
    ensures Distinct(page)
    ensures forall k | k in list :: k in page <==> KeyLe(k, page[|page| - 1])
  {
    assert page == list[..|page|];
    forall k | k in list ensures k in page <==> KeyLe(k, page[|page| - 1]) {
      var i :| 0 <= i < |list| && list[i] == k;
      if i < |page| { assert page[i] == k; }
    }
  }

  /** A page holds the next keys in order: none covered before, none after today, and every key up to its last. */
  lemma PageIsNew(s: Store, now: Instant, checkpoint: Option<Key>, page: seq<Key>)
    requires SoundSources(s, now) && page <= Candidates(s.bookmarks, checkpoint)
    requires s.baseline.Some? ==> checkpoint == s.baseline.value.checkpoint && s.baseline.value.status != Active
    ensures Distinct(page)
    ensures forall k | k in page :: WeekStart(k.week) <= now && !Covered(s, k)
    ensures page != [] ==> forall k | k in Candidates(s.bookmarks, checkpoint) ::
      k in page
      <==> KeyLe(k, page[|page| - 1])
    ensures page != [] && checkpoint.Some? ==>
      KeyLe(checkpoint.value, page[|page| - 1])
      && checkpoint.value != page[|page| - 1]
  {
    hide WeeklyStats;
    KeyOrder();
    var candidates := Candidates(s.bookmarks, checkpoint);
    assert page == candidates[..|page|];
    if page != [] { PrefixOfAscending(candidates, page); }
    forall k | k in page
      ensures WeekStart(k.week) <= now && (checkpoint.Some? ==> !KeyLe(k, checkpoint.value))
    {
      assert k in candidates;
      RemainingKeys(s.bookmarks, checkpoint, k);
      var id :| id in s.bookmarks && KeyOf(s.bookmarks[id]) == k;
      WindowsPartition(s.bookmarks[id].createdAt, k.week);
    }
    if page != [] { assert page[|page| - 1] in page; }
  }

  /** The baseline row a step ends with. */
  function Advanced(started: Baseline, candidates: seq<Key>, batch: nat): Baseline {
    var page := First(candidates, batch);
    var advanced := if page == [] then started else started.(checkpoint := Some(page[|page| - 1]));
    if |candidates| > batch then advanced else advanced.(status := Active)
  }

  /** Advancing the baseline keeps what it had charge of. */
  lemma ChargeGrows(s: Store, started: Baseline, batch: nat, now: Instant)
    requires SoundSources(s, now) && SoundRows(s, now)
    requires StartOrResume(s.baseline, started.version) == Ok(started) && started.status != Active
    ensures var candidates := Candidates(s.bookmarks, started.checkpoint);
      var charged := s.(baseline := Some(Advanced(started, candidates, batch)));
      && SoundRows(charged, now)
      && (forall k :: EffectiveRow(charged, k) == EffectiveRow(s, k))
      && (forall k | k in First(candidates, batch) :: Covered(charged, k))
  {
    hide Chained, WeeklyStats, SoundSources, Candidates;
    var candidates := Candidates(s.bookmarks, started.checkpoint);
    var page := First(candidates, batch);
    assert page == candidates[..|page|];
    PageIsNew(s, now, started.checkpoint, page);
    var charged := s.(baseline := Some(Advanced(started, candidates, batch)));
    forall k ensures EffectiveRow(charged, k) == EffectiveRow(s, k) {}
    forall k | Covered(s, k) ensures Covered(charged, k) {}
    forall k | k in page ensures Covered(charged, k) { assert k in candidates; }
  }

  /** The committed baseline step keeps the invariant; it is refused only for a foreign version or after a failure. */
  lemma BaselineEffect(m: Moment, version: nat, batch: nat)
    requires Invariant(m) && batch >= 1
    ensures var r := BaselineStep(m.store, version, batch, m.now);
      && (r.Err? <==>
        m.store.baseline.Some?
        && (m.store.baseline.value.version != version || m.store.baseline.value.status == Failed))
      && (r.Err? ==> r.error == if m.store.baseline.value.version != version then VersionMismatch else WrongTransition)
      && (r.Ok? ==> r.value.baseline.Some? && r.value.baseline.value.version == version
                    && r.value.baseline.value.status in {Running, Active})
      && (r.Ok? ==> Invariant(Moment(r.value, m.now)) && m.store.points <= r.value.points)
  {
    hide Chained, WeeklyStats, SoundSources, SoundRows, Candidates, PersistPage;
    var s := m.store;
    if StartOrResume(s.baseline, version).Ok? {
      var started := StartOrResume(s.baseline, version).value;
      if started.status == Active {
        assert BaselineStep(s, version, batch, m.now) == Ok(s);
      } else {
        var candidates := Candidates(s.bookmarks, started.checkpoint);
        var page := First(candidates, batch);
        assert page == candidates[..|page|];
        var charged := s.(baseline := Some(Advanced(started, candidates, batch)));
        ChargeGrows(s, started, batch, m.now);
        PageIsNew(s, m.now, started.checkpoint, page);
        UncoveredHasNoRow(s, m.now);
        PageEffect(charged, page, m.now);
        var rows := PersistPage(s.bookmarks, Rows(s.working, s.points), version, page, m.now).value;
        assert BaselineStep(s, version, batch, m.now) == Ok(WithRows(charged, rows));
        SourcesUnchanged(s, WithRows(charged, rows), m.now);
        BaselineProjected(s, charged, WithRows(charged, rows), started, batch, m.now);
      }
    }
  }

  lemma SourcesUnchanged(s: Store, after: Store, now: Instant)
    requires SoundSources(s, now) && after.users == s.users && after.bookmarks == s.bookmarks && after.dirty == s.dirty
    ensures SoundSources(after, now)
  {
  }

  lemma UncoveredHasNoRow(s: Store, now: Instant)
    requires SoundRows(s, now)
    ensures forall k | !Covered(s, k) :: EffectiveRow(s, k).None?
  {
    hide Chained;
  }

  lemma BaselineProjected(s: Store, charged: Store, after: Store, started: Baseline, batch: nat, now: Instant)
    requires Projected(s) && SoundRows(s, now) && SoundSources(s, now)
    requires StartOrResume(s.baseline, started.version) == Ok(started) && started.status != Active
    requires charged == s.(baseline := Some(Advanced(started, Candidates(s.bookmarks, started.checkpoint), batch)))
    requires after == charged.(working := after.working, points := after.points)
    requires forall j :: EffectiveRow(after, j) == if j in First(Candidates(s.bookmarks, started.checkpoint), batch)
      then Some(Calculate(s.bookmarks, started.version, j)) else EffectiveRow(s, j)
    ensures Projected(after)
  {
    hide Chained, WeeklyStats, SoundSources, SoundRows, Candidates;
    var candidates := Candidates(s.bookmarks, started.checkpoint);
    var page := First(candidates, batch);
    assert page == candidates[..|page|];
    PageIsNew(s, now, started.checkpoint, page);
    UncoveredHasNoRow(s, now);
    forall j | Covered(after, j) && !PendingFor(after.dirty, Consumer.Projection, j) ensures UpToDate(after, j) {
      if j !in page {
        if Covered(s, j) {
          assert UpToDate(s, j);
        } else {
          RemainingKeys(s.bookmarks, started.checkpoint, j);
          BookmarksOfKey(s.bookmarks, j);
        }
      }
    }
  }

  // ---------------------------------------------------------------- mutations and acknowledgements

  /** A mutation confined to one key leaves that key pending, and every other key as it was. */
  lemma MutationKeeps(s: Store, after: Store, k: Key, at: Instant, now: Instant)
    requires SoundRows(s, now) && Projected(s)
    requires after == s.(bookmarks := after.bookmarks, dirty := Mark(s.dirty, k, at))
    requires forall j | j != k :: WindowRows(after.bookmarks, j.user, j.week) == WindowRows(s.bookmarks, j.user, j.week)
    ensures SoundRows(after, now) && Projected(after)
  {
    hide Chained, Aggregate, EffectivePoint;
    forall j ensures EffectiveRow(after, j) == EffectiveRow(s, j) && Covered(after, j) == Covered(s, j) {}
    forall j | Covered(after, j) && !PendingFor(after.dirty, Consumer.Projection, j) ensures UpToDate(after, j) {
      assert UpToDate(s, j);
    }
  }

  lemma OtherKeysUntouched(t: Table, u: Table, id: nat, k: Key)
    requires t - {id} == u - {id}
    requires id in t ==> KeyOf(t[id]) == k
    requires id in u ==> KeyOf(u[id]) == k
    ensures forall j: Key | j != k :: WindowRows(t, j.user, j.week) == WindowRows(u, j.user, j.week)
  {
    forall j: Key | j != k ensures WindowRows(t, j.user, j.week) == WindowRows(u, j.user, j.week) {
      if id in t { WindowsPartition(t[id].createdAt, j.week); }
      if id in u { WindowsPartition(u[id].createdAt, j.week); }
      forall i | i != id ensures i in t <==> i in u {
        assert i in t <==> i in t - {id};
        assert i in u <==> i in u - {id};
      }
      forall i | i != id && i in t ensures t[i] == u[i] {
        assert (t - {id})[i] == (u - {id})[i];
      }
    }
  }

  /** The table gains exactly this row. */
  ghost predicate Stored(s: Store, after: Store, id: nat, b: Bookmark) {
    && id in after.bookmarks
    && (var row := after.bookmarks[id];
        && row.user == b.user && row.url == b.url && row.title == b.title && row.description == b.description
        && row.tags == b.tags && row.createdAt == b.createdAt && row.updatedAt == b.updatedAt)
    && (forall i | i != id :: i in after.bookmarks <==> i in s.bookmarks)
    && (forall i | i != id && i in s.bookmarks :: after.bookmarks[i] == s.bookmarks[i])
  }

  /** The table loses exactly this row. */
  ghost predicate Removed(s: Store, after: Store, id: nat) {
    && (forall i :: i in after.bookmarks <==> i in s.bookmarks && i != id)
    && (forall i | i in after.bookmarks :: after.bookmarks[i] == s.bookmarks[i])
  }

  /** A committed create, patch or delete: one row of one key changes, and that key's marker advances with it. */
  ghost predicate Mutates(s: Store, after: Store, id: nat, k: Key, at: Instant) {
    && after == s.(bookmarks := after.bookmarks, dirty := Mark(s.dirty, k, at))
    && s.bookmarks - {id} == after.bookmarks - {id} && s.bookmarks != after.bookmarks
    && (id in s.bookmarks ==> KeyOf(s.bookmarks[id]) == k)
    && (id in after.bookmarks ==> KeyOf(after.bookmarks[id]) == k)
  }

  /** The time a mutation marks its week with: the row's creation or update time, or the clock's for a delete. */
  function MarkTime(s: Store, e: Event): Instant
    requires e.CreateEvent? || e.PatchEvent? || e.DeleteEvent?
  {
    if e.CreateEvent? then e.row.createdAt
    else if e.PatchEvent? && e.id in s.bookmarks then NextUpdatedAt(s.bookmarks[e.id].updatedAt, e.observed)
    else e.observed
  }

  lemma MutationsMark(s: Store, e: Event, now: Instant)
    requires e.CreateEvent? || e.PatchEvent? || e.DeleteEvent?
    ensures var after := StoreAfter(s, now, e);
      var k := if e.CreateEvent? then KeyOf(e.row) else if e.id in s.bookmarks then KeyOf(s.bookmarks[e.id])
        else Key(0, 0);
      after == s || Mutates(s, after, e.id, k, MarkTime(s, e))
  {
    var after := StoreAfter(s, now, e);
    assert s.bookmarks - {e.id} == after.bookmarks - {e.id};
    if after != s && e.PatchEvent? { assert after.bookmarks[e.id] != s.bookmarks[e.id]; }
    if after != s {
      assert e.id in s.bookmarks ==> e.id !in after.bookmarks || after.bookmarks[e.id] != s.bookmarks[e.id];
    }
  }

  lemma {:induction false} AcknowledgeAllEffect(d: DirtyTable, acks: seq<(Key, nat)>)
    requires ValidTable(d) && AcknowledgeAll(d, acks).Some?
    ensures var d' := AcknowledgeAll(d, acks).value;
      && ValidTable(d') && d'.Keys <= d.Keys
      && (forall j :: PendingFor(d', Consumer.Projection, j) == PendingFor(d, Consumer.Projection, j))
      && (forall j | j in d' :: d'[j].generation == d[j].generation && d'[j].markedAt == d[j].markedAt)
      && (forall j :: PendingFor(d', Current, j) ==> PendingFor(d, Current, j))
      && (forall x | x in acks :: !PendingFor(d', Current, x.0))
  {
    if acks != [] {
      assert acks == [acks[0]] + acks[1..];
      AcknowledgeEffect(d, Current, acks[0].0, acks[0].1);
      AcknowledgeAllEffect(Acknowledge(d, Current, acks[0].0, acks[0].1).0, acks[1..]);
    }
  }

  // ---------------------------------------------------------------- every reachable state

  lemma MutationStep(m: Moment, e: Event)
    requires Invariant(m) && (e.CreateEvent? || e.PatchEvent? || e.DeleteEvent?)
    ensures Invariant(Step(m, e)) && m.store.points == Step(m, e).store.points
      && m.store.baseline == Step(m, e).store.baseline
  {
    hide Chained, WeeklyStats, SoundRows, Projected;
    var s, after := m.store, StoreAfter(m.store, m.now, e);
    MutationsMark(s, e, m.now);
    if after != s {
      var k := if e.CreateEvent? then KeyOf(e.row) else KeyOf(s.bookmarks[e.id]);
      OtherKeysUntouched(s.bookmarks, after.bookmarks, e.id, k);
      MutationKeeps(s, after, k, MarkTime(s, e), m.now);
      var b := if e.CreateEvent? then e.row else s.bookmarks[e.id];
      WindowsPartition(b.createdAt, k.week);
    }
  }

  lemma AcknowledgeStep(m: Moment, acks: seq<(Key, nat)>)
    requires Invariant(m)
    ensures Invariant(Step(m, CurrentEvent(acks)))
  {
    hide Chained, WeeklyStats, EffectivePoint;
    var after := StoreAfter(m.store, m.now, CurrentEvent(acks));
    if AcknowledgeAll(m.store.dirty, acks).Some? {
      AcknowledgeAllEffect(m.store.dirty, acks);
      forall j ensures EffectiveRow(after, j) == EffectiveRow(m.store, j) && Covered(after, j) == Covered(m.store, j) {}
      forall j | Covered(after, j) && !PendingFor(after.dirty, Consumer.Projection, j) ensures UpToDate(after, j) {
        assert UpToDate(m.store, j);
      }
    }
  }

  /** Registering, failing the baseline and the passing of time disturb nothing. */
  lemma QuietStep(m: Moment, e: Event)
    requires Invariant(m) && (e.Tick? || e.Register? || e.FailEvent?)
    ensures Invariant(Step(m, e)) && m.store.points == Step(m, e).store.points
    ensures m.store.baseline.Some? && m.store.baseline.value.status == Active
      ==> Step(m, e).store.baseline == m.store.baseline
  {
    hide Chained, WeeklyStats, EffectivePoint;
    var after := StoreAfter(m.store, m.now, e);
    forall j ensures EffectiveRow(after, j) == EffectiveRow(m.store, j) && Covered(after, j) == Covered(m.store, j) {}
    forall j | Covered(after, j) && !PendingFor(after.dirty, Consumer.Projection, j) ensures UpToDate(after, j) {
      assert UpToDate(m.store, j);
    }
  }

  /** What one step may do to developed history and to an active baseline. */
  ghost predicate Extends(s: Store, after: Store) {
    && s.points <= after.points
    && (s.baseline.Some? && s.baseline.value.status == Active ==> after.baseline == s.baseline)
  }

  lemma DirtyStep(m: Moment, version: nat, k: Key, g: nat)
    requires Invariant(m)
    ensures Invariant(Step(m, DirtyEvent(version, k, g))) && Extends(m.store, Step(m, DirtyEvent(version, k, g)).store)
  {
    hide Chained, WeeklyStats, SoundRows, Refresh;
    if WeekStart(k.week) <= m.now && RequireActive(m.store.baseline, version).None? {
      ProcessDirtyEffect(m, version, k, g);
    }
  }

  lemma OverdueStep(m: Moment, version: nat, k: Key)
    requires Invariant(m)
    ensures Invariant(Step(m, OverdueEvent(version, k))) && Extends(m.store, Step(m, OverdueEvent(version, k)).store)
  {
    hide Chained, WeeklyStats, SoundRows, Develop;
    if RequireActive(m.store.baseline, version).None? {
      ProcessOverdueEffect(m, version, k);
    }
  }

  /** Every transaction, committed or refused, keeps the invariant, only appends points, and leaves an active baseline
      active. */
  lemma StepKeeps(m: Moment, e: Event)
    requires Invariant(m)
    ensures Invariant(Step(m, e)) && Extends(m.store, Step(m, e).store)
  {
    hide Invariant;
    match e
    case CreateEvent(_, _) => MutationStep(m, e);
    case PatchEvent(_, _, _, _) => MutationStep(m, e);
    case DeleteEvent(_, _, _) => MutationStep(m, e);
    case CurrentEvent(acks) => AcknowledgeStep(m, acks);
    case BaselineEvent(version, batch) => if batch >= 1 { BaselineEffect(m, version, batch); }
    case DirtyEvent(version, k, g) => DirtyStep(m, version, k, g);
    case OverdueEvent(version, k) => OverdueStep(m, version, k);
    case _ => QuietStep(m, e);
  }

  lemma InitialHolds(m: Moment)
    requires Initial(m)
    ensures Invariant(m)
  {
  }

  lemma {:induction false} RunKeeps(m: Moment, events: seq<Event>)
    requires Invariant(m)
    ensures Invariant(Run(m, events))
  {
    hide Invariant;
    if events != [] {
      RunKeeps(m, events[..|events| - 1]);
      StepKeeps(Run(m, events[..|events| - 1]), events[|events| - 1]);
    }
  }
}
