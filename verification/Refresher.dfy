/** The worker: its current phase, its cycles, and what repeated cycles come to when no request thread acts between
    them. */
module Refresher {
  import opened Orders
  import opened Calendar
  import opened Statistics
  import opened Dirty
  import opened Projection
  import opened ProjectionProofs
  import opened Database
  import opened Snapshots
  import opened CurrentStats
  import opened CurrentStatsProofs
  import opened ProjectionPhase
  import opened ProjectionTheorems

  // ---------------------------------------------------------------- the current cycle

  /** What the last transaction of a refresh does to the cache and the dirty table, and whether it succeeds. */
  function Finished(
      cache: Cache, dirty: DirtyTable, user: nat, r: Attempt, acks: seq<(Key, nat)>, commitFails: bool)
    : (Cache, DirtyTable, bool)
    requires r.HasStats?
  {
    var (published, installed) := Published(cache, user, r.stats, r.at, r.epoch);
    match AcknowledgeAll(dirty, acks)
    case None => (cache, dirty, false)
    case Some(acknowledged) =>
      if !installed then (cache, dirty, false)
      else if commitFails && acks != [] then (Invalidated(published, user), dirty, false)
      else (published, acknowledged, true)
  }

  /** The method below is the interleaved model's step, whatever happened since its reads. */
  lemma FinaliseIsFinished(s: System, commitFails: bool)
    requires s.worker.Working? && s.worker.todo != [] && s.worker.refresh.HasStats?
    ensures var user := s.worker.todo[0];
      var after := FinaliseUser(s, commitFails);
      var (cache, dirty, ok) :=
        Finished(s.cache, s.moment.store.dirty, user, s.worker.refresh, MarkersOf(s.worker.cycle.markers, user),
          commitFails);
      && after.cache == cache && after.moment == s.moment.(store := s.moment.store.(dirty := dirty))
      && after.worker == s.worker.(todo := s.worker.todo[1..], failed := s.worker.failed || !ok, refresh := Ready)
  {
    hide AcknowledgeAll, MarkersOf, Published, Invalidated;
  }

  lemma {:induction false} CurrentMarkersSucceed(d: DirtyTable, acks: seq<(Key, nat)>)
    requires ValidTable(d) && forall x | x in acks :: x.0 in d && d[x.0].generation == x.1
    requires DistinctKeys(acks)
    ensures AcknowledgeAll(d, acks).Some?
  {
    if acks != [] {
      AcknowledgeEffect(d, Current, acks[0].0, acks[0].1);
      CurrentMarkersSucceed(Acknowledge(d, Current, acks[0].0, acks[0].1).0, acks[1..]);
    }
  }

  lemma {:induction false} MarkersOfDistinct(markers: seq<(Key, nat)>, user: nat)
    requires DistinctKeys(markers)
    ensures DistinctKeys(MarkersOf(markers, user))
  {
    if markers != [] {
      var rest := MarkersOf(markers[1..], user);
      MarkersOfDistinct(markers[1..], user);
      MarkersOfUser(markers[1..], user);
      forall x | x in rest ensures x.0 != markers[0].0 {
        var j :| 0 <= j < |markers[1..]| && markers[1..][j] == x;
        assert markers[j + 1] == x;
      }
    }
  }

  /** Markers not yet acknowledged still name their rows' generations. */
  ghost predicate Fresh(d: DirtyTable, markers: seq<(Key, nat)>, todo: seq<nat>) {
    ValidTable(d) && forall x | x in markers && x.0.user in todo :: x.0 in d && d[x.0].generation == x.1
  }

  lemma RefreshKeepsFresh(d: DirtyTable, markers: seq<(Key, nat)>, todo: seq<nat>, user: nat)
    requires Fresh(d, markers, [user] + todo) && user !in todo
    requires DistinctKeys(markers)
    ensures AcknowledgeAll(d, MarkersOf(markers, user)).Some?
    ensures Fresh(AcknowledgeAll(d, MarkersOf(markers, user)).value, markers, todo)
  {
    var acks := MarkersOf(markers, user);
    MarkersOfDistinct(markers, user);
    MarkersOfUser(markers, user);
    CurrentMarkersSucceed(d, acks);
    AcknowledgedExactly(d, acks);
    AcknowledgeAllEffect(d, acks);
  }

  /** What the current consumer may do to the table: end its own work, remove rows, and nothing else. */
  ghost predicate Settles(d: DirtyTable, d': DirtyTable) {
    && ValidTable(d') && d'.Keys <= d.Keys
    && (forall k | k in d' :: d'[k].generation == d[k].generation && d'[k].markedAt == d[k].markedAt)
    && (forall k :: PendingFor(d', Consumer.Projection, k) == PendingFor(d, Consumer.Projection, k))
    && (forall k :: PendingFor(d', Current, k) ==> PendingFor(d, Current, k))
  }

  lemma Unsettled(d: DirtyTable, markers: seq<(Key, nat)>, todo: seq<nat>)
    requires Fresh(d, markers, todo)
    ensures Settles(d, d)
  {
  }

  lemma RefreshSettles(
      d: DirtyTable, d': DirtyTable, d'': DirtyTable, markers: seq<(Key, nat)>, done: seq<nat>, user: nat)
    requires Settles(d, d') && AcknowledgeAll(d', MarkersOf(markers, user)) == Some(d'')
    requires forall x | x in markers && x.0.user in done :: !PendingFor(d', Current, x.0)
    ensures Settles(d, d'')
    ensures forall x | x in markers && (x.0.user in done || x.0.user == user) :: !PendingFor(d'', Current, x.0)
  {
    hide AcknowledgeAll, MarkersOf;
    AcknowledgeAllEffect(d', MarkersOf(markers, user));
    MarkersOfUser(markers, user);
  }

  predicate Shows(c: Cache, user: nat, stats: Stats) { Get(c, user).Some? && Get(c, user).value.stats == stats }

  lemma SettlingKeeps(s: Store, d': DirtyTable, now: Instant, later: Instant)
    requires Invariant(Moment(s, now)) && Settles(s.dirty, d') && now <= later
    ensures Invariant(Moment(s.(dirty := d'), later))
  {
    hide Chained, WeeklyStats, EffectivePoint;
    var after := s.(dirty := d');
    forall j ensures EffectiveRow(after, j) == EffectiveRow(s, j) && Covered(after, j) == Covered(s, j) {}
    forall j | Covered(after, j) && !PendingFor(d', Consumer.Projection, j) ensures UpToDate(after, j) {
      assert UpToDate(s, j);
    }
    TimePasses(after, now, later);
  }

  // ---------------------------------------------------------------- progress of one cycle

  /** A row among the oldest stays among them while others go. */
  lemma StaysAmongOldest(d: DirtyTable, d': DirtyTable, batch: nat, k: Key)
    requires d'.Keys <= d.Keys && forall j | j in d' :: d'[j].markedAt == d[j].markedAt
    requires k in d' && exists x :: x in FirstMarkers(d, batch) && x.0 == k
    ensures (k, d'[k].generation) in FirstMarkers(d', batch)
  {
    hide Sort, MarkedRows, OlderLe, FirstMarkers, Ascending;
    FirstMarkersAre(d, batch);
    FirstMarkersAre(d', batch);
    var markers, markers' := FirstMarkers(d, batch), FirstMarkers(d', batch);
    var j :| 0 <= j < |markers| && markers[j].0 == k;
    var m := Marked(d[k].markedAt, k);
    assert OldestFirst(d)[j] == m by { assert OldestFirst(d)[j] in OldestFirst(d); }
    assert m in OldestFirst(d');
    var i :| 0 <= i < |OldestFirst(d')| && OldestFirst(d')[i] == m;
    OldestMovesForward(d, d', i, j);
    assert markers'[i].0 == k && markers'[i] in markers';
  }

  lemma OldestMovesForward(d: DirtyTable, d': DirtyTable, i: nat, j: nat)
    requires d'.Keys <= d.Keys && forall k | k in d' :: d'[k].markedAt == d[k].markedAt
    requires j < |d| && i < |d'| && OldestFirst(d')[i] == OldestFirst(d)[j]
    ensures i <= j
  {
    OlderOrder();
    RowCount(d);
    RowCount(d');
    SubsetMovesForward(MarkedRows(d'), MarkedRows(d), OlderLe, i, j);
  }

  /** Both consumers having worked through the same oldest rows, those rows are gone. */
  lemma CycleDrains(d: DirtyTable, d': DirtyTable, d'': DirtyTable, batch: nat)
    requires Settles(d, d') && Shrinks(d', d'') && ValidTable(d'')
    requires forall x | x in FirstMarkers(d, batch) :: !PendingFor(d', Current, x.0)
    requires forall x | x in FirstMarkers(d', batch) :: !PendingFor(d'', Consumer.Projection, x.0)
    ensures |d''| + batch <= |d| || d'' == map[]
  {
    hide FirstMarkers;
    FirstMarkersAre(d, batch);
    var markers := FirstMarkers(d, batch);
    var gone := set x | x in markers :: x.0;
    forall k | k in gone ensures k !in d'' {
      var x :| x in markers && x.0 == k;
      if k in d'' {
        StaysAmongOldest(d, d', batch, k);
        assert false;
      }
    }
    GoneCount(d, batch, gone);
    assert d''.Keys <= d.Keys - gone;
    SubsetSize(d''.Keys, d.Keys - gone);
    assert |d.Keys - gone| == |d.Keys| - |gone|;
    assert |d''.Keys| == |d''| && |d.Keys| == |d|;
  }

  lemma GoneCount(d: DirtyTable, batch: nat, gone: set<Key>)
    requires gone == set x | x in FirstMarkers(d, batch) :: x.0
    ensures gone <= d.Keys && |gone| == if |d| < batch then |d| else batch
  {
    hide FirstMarkers;
    FirstMarkersAre(d, batch);
    var markers := FirstMarkers(d, batch);
    var keys := seq(|markers|, i requires 0 <= i < |markers| => markers[i].0);
    forall k ensures k in gone <==> k in keys {
      if k in gone {
        var i :| 0 <= i < |markers| && markers[i].0 == k;
        assert keys[i] == k;
      }
      if k in keys {
        var i :| 0 <= i < |keys| && keys[i] == k;
        assert markers[i] in markers;
      }
    }
    DistinctCounts(keys, gone);
  }

  /** ceil(n / batch): the cycles that drain n rows. */
  function Rounds(n: nat, batch: nat): nat
    requires batch >= 1
  {
    (n + batch - 1) / batch
  }

  lemma RoundsShrink(n: nat, left: nat, batch: nat)
    requires batch >= 1 && n >= 1 && (left + batch <= n || left == 0)
    ensures Rounds(left, batch) + 1 <= Rounds(n, batch)
  {
    var q, r := (n - 1) / batch, (n - 1) % batch;
    assert n - 1 == q * batch + r && (q + 1) * batch == q * batch + batch;
    Quotient(n - 1 + batch, batch, q + 1, r);
    if left == 0 {
      Quotient(batch - 1, batch, 0, batch - 1);
    } else {
      RoundsGrow(left + batch - 1, n - 1, batch);
    }
  }

  lemma RoundsGrow(a: nat, b: nat, batch: nat)
    requires batch >= 1 && a <= b
    ensures a / batch <= b / batch
  {
    if a / batch > b / batch { Product(b / batch + 1, a / batch, batch); }
  }

  /** The cycles a sweep with this many users left still takes: floor(n / batch) + 1, for the last page must come
      short. */
  function SweepCycles(left: nat, batch: nat): nat
    requires batch >= 1
  {
    left / batch + 1
  }

  lemma SweepShrinks(left: nat, batch: nat)
    requires batch >= 1
    ensures SweepCycles(left, batch) == if left < batch then 1 else SweepCycles(left - batch, batch) + 1
  {
    if left < batch {
      Quotient(left, batch, 0, left);
    } else {
      var q, r := (left - batch) / batch, (left - batch) % batch;
      assert left - batch == q * batch + r && (q + 1) * batch == q * batch + batch;
      Quotient(left, batch, q + 1, r);
    }
  }

  function UserSet(users: set<nat>, cursor: nat): set<nat> { set u | u in users && u > cursor }

  lemma BeyondUser(users: set<nat>, cursor: nat, i: nat)
    requires i < |UsersAfter(users, cursor)|
    ensures var last := UsersAfter(users, cursor)[i]; UsersAfter(users, last) == UsersAfter(users, cursor)[i + 1..]
  {
    NatOrder();
    var left := UsersAfter(users, cursor);
    assert left == Sort<nat>(UserSet(users, cursor), NatLe);
    var last := left[i];
    assert last in left;
    var further := UserSet(users, last);
    assert UsersAfter(users, last) == Sort<nat>(further, NatLe);
    forall u: nat ensures u in further <==> u in UserSet(users, cursor) && NatLe(last, u) && u != last {}
    SortBeyond<nat>(UserSet(users, cursor), further, NatLe, i);
  }

  /** After a full page the users left are those beyond it. */
  lemma UsersLeft(users: set<nat>, cursor: nat, batch: nat)
    requires batch >= 1
    ensures var left := UsersAfter(users, cursor); var page := First(left, batch);
      && (|page| < batch <==> |left| < batch)
      && (|page| == batch ==> |UsersAfter(users, page[batch - 1])| == |left| - batch)
  {
    hide UsersAfter;
    var left := UsersAfter(users, cursor);
    if |left| >= batch { BeyondUser(users, cursor, batch - 1); }
  }

  class StatsRefresher {
    const db: StatsDatabase
    const publisher: StatsInvalidationPublisher
    const limit: nat
    const batch: nat
    var fullCursor: nat

    constructor (db: StatsDatabase, publisher: StatsInvalidationPublisher, limit: nat, batch: nat)
      ensures this.db == db && this.publisher == publisher && this.limit == limit && this.batch == batch
        && fullCursor == 0
    {
      this.db, this.publisher, this.limit, this.batch, fullCursor := db, publisher, limit, batch, 0;
    }

    /** Acknowledge, publish, commit; a failed commit withdraws what was published. */
    method FinishRefresh(user: nat, r: Attempt, acks: seq<(Key, nat)>, commitFails: bool) returns (ok: bool)
      requires r.HasStats?
      modifies db, publisher.store
      ensures (publisher.store.Contents(), db.dirty, ok)
        == Finished(old(publisher.store.Contents()), old(db.dirty), user, r, acks, commitFails)
      ensures db.State() == old(db.State()).(dirty := db.dirty)
    {
      hide AcknowledgeAll;
      var saved := db.State();
      var acknowledged := db.AcknowledgeCurrent(acks);
      if !acknowledged { return false; }
      var published := publisher.store.Publish(user, r.stats, r.at, r.epoch);
      if !published {
        db.Rollback(saved);
        return false;
      }
      if commitFails && acks != [] {
        var _ := publisher.store.Invalidate(user);
        db.Rollback(saved);
        return false;
      }
      ok := true;
    }

    method RefreshUser(user: nat, acks: seq<(Key, nat)>, clock: Clock, commitFails: bool) returns (ok: bool)
      modifies db, publisher.store, clock
      ensures clock.last >= old(clock.last)
      ensures db.State() == old(db.State()).(dirty := db.dirty)
      ensures ok == (AcknowledgeAll(old(db.dirty), acks).Some? && !(commitFails && acks != []))
      ensures db.dirty == if ok then AcknowledgeAll(old(db.dirty), acks).value else old(db.dirty)
      ensures ok ==> Shows(publisher.store.Contents(), user, AllTimeStats(db.bookmarks, user, limit))
      ensures forall u | u != user :: Get(publisher.store.Contents(), u) == Get(old(publisher.store.Contents()), u)
    {
      hide AllTimeStats, AcknowledgeAll;
      var expected := publisher.store.Epoch(user);
      var stats := AllTimeStats(db.bookmarks, user, limit);
      var now := clock.Now();
      ok := FinishRefresh(user, HasStats(expected, stats, now, {}), acks, commitFails);
    }

    /** The users in order, each in its own transaction; one failure does not stop the others. With markers that name
        their rows and no failing commit all succeed: live statistics for every user, and the current work of their
        markers done. */
    method RefreshUsers(
        users: seq<nat>, markers: seq<(Key, nat)>, clock: Clock, commitFails: set<nat>) returns (success: bool)
      requires forall i, j | 0 <= i < j < |users| :: users[i] < users[j]
      modifies db, publisher.store, clock
      ensures clock.last >= old(clock.last)
      ensures db.State() == old(db.State()).(dirty := db.dirty)
      ensures success ==> forall u | u in users ::
        Shows(publisher.store.Contents(), u, AllTimeStats(db.bookmarks, u, limit))
      ensures old(DistinctKeys(markers) && Fresh(db.dirty, markers, users)) && commitFails == {} ==>
        && success && Settles(old(db.dirty), db.dirty)
        && (forall x | x in markers && x.0.user in users :: !PendingFor(db.dirty, Current, x.0))
        && (forall u | old(Shows(publisher.store.Contents(), u, AllTimeStats(db.bookmarks, u, limit))) ::
              Shows(publisher.store.Contents(), u, AllTimeStats(db.bookmarks, u, limit)))
    {
      hide AllTimeStats, AcknowledgeAll, MarkersOf, Get, Fresh, Settles, PendingFor;
      success := true;
      ghost var sound := DistinctKeys(markers) && Fresh(db.dirty, markers, users) && commitFails == {};
      ghost var bookmarks, dirty, cache := db.bookmarks, db.dirty, publisher.store.Contents();
      if sound { Unsettled(dirty, markers, users); }
      assert users[0..] == users;
      var i := 0;
      while i < |users|
        invariant i <= |users| && clock.last >= old(clock.last)
        invariant db.State() == old(db.State()).(dirty := db.dirty)
        invariant success ==> forall j | 0 <= j < i ::
          Shows(publisher.store.Contents(), users[j], AllTimeStats(bookmarks, users[j], limit))
        invariant sound ==>
          && success && Fresh(db.dirty, markers, users[i..]) && Settles(dirty, db.dirty)
          && (forall x | x in markers && x.0.user in users[..i] :: !PendingFor(db.dirty, Current, x.0))
          && (forall u | Shows(cache, u, AllTimeStats(bookmarks, u, limit)) ::
                Shows(publisher.store.Contents(), u, AllTimeStats(bookmarks, u, limit)))
      {
        assert users[i..] == [users[i]] + users[i + 1..] && users[..i + 1] == users[..i] + [users[i]];
        ghost var before := db.dirty;
        if sound { RefreshKeepsFresh(before, markers, users[i + 1..], users[i]); }
        var ok := RefreshUser(users[i], MarkersOf(markers, users[i]), clock, users[i] in commitFails);
        if sound { RefreshSettles(dirty, before, db.dirty, markers, users[..i], users[i]); }
        success := success && ok;
        i := i + 1;
      }
      assert users[..i] == users;
    }

    /** What a cycle reads first: hints leave the queue, markers and users are only read. */
    method Gather(full: bool) returns (users: seq<nat>, markers: seq<(Key, nat)>, page: seq<nat>)
      requires 1 <= batch <= publisher.capacity
      modifies publisher`queue
      ensures forall i, j | 0 <= i < j < |users| :: users[i] < users[j]
      ensures markers == FirstMarkers(db.dirty, batch) && forall x | x in markers :: x.0.user in users
      ensures page == if full then First(UsersAfter(db.users, fullCursor), batch) else []
      ensures forall u | u in page :: u in users
      ensures forall i | 0 <= i < batch && i < |old(publisher.queue)| :: old(publisher.queue)[i] in users
    {
      hide UsersAfter, First, FirstMarkers;
      var hints := publisher.Drain(batch);
      markers := db.Observe(batch);
      page := if full then First(UsersAfter(db.users, fullCursor), batch) else [];
      var marked := set x | x in markers :: x.0.user;
      users := Ordered((set u | u in hints) + marked + (set u | u in page));
      forall i | 0 <= i < batch && i < |old(publisher.queue)| ensures old(publisher.queue)[i] in users {
        assert hints[i] == old(publisher.queue)[i];
      }
    }

    /** The end of a full cycle: reset the sweep, advance it, or try the same page again. */
    method Conclude(page: seq<nat>, success: bool, epoch: nat)
      modifies this, publisher`reconciliationRequired, publisher`troubles
      ensures var ended := success && |page| < batch && db.dirty == map[];
        && fullCursor == (if ended then 0 else if success && page != [] then page[|page| - 1] else old(fullCursor))
        && publisher.reconciliationRequired == (!ended
          || (old(publisher.reconciliationRequired) && old(publisher.troubles) != epoch))
    {
      if success && |page| < batch && db.dirty == map[] {
        fullCursor := 0;
        var _ := publisher.AcknowledgeFullReconciliation(epoch);
      } else if success && page != [] {
        fullCursor := page[|page| - 1];
        publisher.RequireFullReconciliation();
      } else {
        publisher.RequireFullReconciliation();
      }
    }

    /** The current half of run_cycle. Without failing commits it cannot fail and ends the current work of the oldest
        `batch` marked keys; a successful one shows live statistics for every user it was told of, and only one that
        also saw the last page and an empty backlog ends the demand for reconciliation. */
    method RefreshCurrent(full: bool, clock: Clock, commitFails: set<nat>) returns (success: bool)
      requires 1 <= batch <= publisher.capacity
      modifies this, db, publisher, publisher.store, clock
      ensures clock.last >= old(clock.last)
      ensures db.State() == old(db.State()).(dirty := db.dirty)
      ensures commitFails == {} && old(ValidTable(db.dirty)) ==>
        && success && Settles(old(db.dirty), db.dirty)
        && (forall x | x in FirstMarkers(old(db.dirty), batch) :: !PendingFor(db.dirty, Current, x.0))
        && (forall u | old(Shows(publisher.store.Contents(), u, AllTimeStats(db.bookmarks, u, limit))) ::
              Shows(publisher.store.Contents(), u, AllTimeStats(db.bookmarks, u, limit)))
      ensures success ==> forall x | x in FirstMarkers(old(db.dirty), batch) ::
        Shows(publisher.store.Contents(), x.0.user, AllTimeStats(db.bookmarks, x.0.user, limit))
      ensures success ==> forall i | 0 <= i < batch && i < |old(publisher.queue)| ::
        Shows(publisher.store.Contents(), old(publisher.queue)[i],
          AllTimeStats(db.bookmarks, old(publisher.queue)[i], limit))
      ensures !full && !old(publisher.reconciliationRequired) ==>
        fullCursor == old(fullCursor) && !publisher.reconciliationRequired
      ensures full || old(publisher.reconciliationRequired) ==>
        var page := First(UsersAfter(db.users, old(fullCursor)), batch);
        && (success ==> forall u | u in page ::
          Shows(publisher.store.Contents(), u, AllTimeStats(db.bookmarks, u, limit)))
        && (publisher.reconciliationRequired <==> !(success && |page| < batch && db.dirty == map[]))
        && fullCursor == if !publisher.reconciliationRequired then 0
                         else if success && page != [] then page[|page| - 1] else old(fullCursor)
    {
      hide AllTimeStats, Shows, UsersAfter, Fresh, First, ValidTable, Settles, PendingFor, FirstMarkers;
      var requested := full || publisher.reconciliationRequired;
      var users, markers, page := Gather(requested);
      var epoch := publisher.troubles;
      MarkersAreFresh(db.dirty, batch, users);
      success := RefreshUsers(users, markers, clock, commitFails);
      if requested { Conclude(page, success, epoch); }
    }

    /** One whole cycle. Undisturbed from a sound state with no failing commit, it succeeds; with an active projection
        it removes the oldest `batch` dirty rows at least; and with none it takes the sweep one page further, or ends
        it. */
    method RunCycle(full: bool, clock: Clock, commitFails: set<nat>) returns (success: bool)
      requires 1 <= batch <= publisher.capacity
      modifies this, db, publisher, publisher.store, clock
      ensures clock.last >= old(clock.last)
      ensures old(Startable(db.State(), limit, clock.last)) && commitFails == {} ==>
        && success && Startable(db.State(), limit, clock.last) && SameSources(old(db.State()), db.State())
        && db.dirty.Keys <= old(db.dirty.Keys)
        && (old(ActiveAt(db.State(), limit)) ==>
              ActiveAt(db.State(), limit) && (|db.dirty| + batch <= |old(db.dirty)| || db.dirty == map[]))
        && (ActiveAt(db.State(), limit) ==> forall k | !PendingFor(db.dirty, Consumer.Projection, k) ::
          UpToDate(db.State(), k))
        && (forall u | old(Shows(publisher.store.Contents(), u, AllTimeStats(db.bookmarks, u, limit))) ::
              Shows(publisher.store.Contents(), u, AllTimeStats(db.bookmarks, u, limit)))
        && (!full && !old(publisher.reconciliationRequired) ==>
              fullCursor == old(fullCursor) && !publisher.reconciliationRequired)
        && ((full || old(publisher.reconciliationRequired)) && old(db.dirty) == map[] ==>
              var page := First(UsersAfter(db.users, old(fullCursor)), batch);
              && (forall u | u in page :: Shows(publisher.store.Contents(), u, AllTimeStats(db.bookmarks, u, limit)))
              && (publisher.reconciliationRequired <==> |page| == batch)
              && fullCursor == if |page| == batch then page[batch - 1] else 0)
    {
      hide AllTimeStats, Shows, UsersAfter, First, Settles, PendingFor, FirstMarkers, Invariant, ActiveAt, UpToDate,
        Shrinks;
      ghost var s, start := db.State(), clock.last;
      ghost var sound := Startable(s, limit, start) && commitFails == {};
      if sound { InvariantTable(Moment(s, start)); }
      success := RefreshCurrent(full, clock, commitFails);
      ghost var refreshed := db.State();
      if sound {
        SettlingKeeps(s, db.dirty, start, clock.last);
        SettlingEmpties(s.dirty, db.dirty);
      }
      PageFits(UsersAfter(s.users, old(fullCursor)), batch);
      var _, _, _ := RunProjectionPhase(db, limit, batch, clock);
      if sound {
        InvariantTable(Moment(db.State(), clock.last));
        StillActive(s, refreshed, limit);
        ShrinkingKeys(s.dirty, refreshed.dirty, db.dirty);
        if ActiveAt(s, limit) { CycleDrains(s.dirty, refreshed.dirty, db.dirty, batch); }
      }
    }

    /** The worker's loop, cycle after cycle with no request in between; `due` says when a full reconciliation falls
        due by the clock, as the first one does at once. An active projection drains n dirty rows in at most ceil(n /
        batch) cycles, and then every key shows its live payload. With no dirty rows, a sweep started once is
        acknowledged in exactly the floor(n / batch) + 1 cycles its n users left take; begun at the first user, it ends
        with every snapshot live. */
    method Work(due: seq<bool>, clock: Clock)
      requires 1 <= batch <= publisher.capacity
      modifies this, db, publisher, publisher.store, clock
      ensures old(Startable(db.State(), limit, clock.last)) ==>
        && Startable(db.State(), limit, clock.last) && SameSources(old(db.State()), db.State())
        && (old(ActiveAt(db.State(), limit)) && |due| >= Rounds(|old(db.dirty)|, batch) ==>
              db.dirty == map[] && forall k :: UpToDate(db.State(), k))
      ensures old(Startable(db.State(), limit, clock.last) && db.dirty == map[]) && OnceDue(due) ==>
        && (publisher.reconciliationRequired <==> |due| < SweepCycles(|UsersAfter(db.users, old(fullCursor))|, batch))
        && (!publisher.reconciliationRequired && old(fullCursor) == 0 && (forall u | u in db.users :: u >= 1) ==>
              forall u | u in db.users :: Shows(publisher.store.Contents(), u, AllTimeStats(db.bookmarks, u, limit)))
    {
      hide AllTimeStats, Shows, UsersAfter, First, PendingFor, ActiveAt, UpToDate, Startable, Rounds, SweepCycles;
      ghost var s, n := db.State(), SweepCycles(|UsersAfter(db.users, fullCursor)|, batch);
      ghost var sound, active := Startable(s, limit, clock.last), ActiveAt(s, limit);
      ghost var sweeping := sound && s.dirty == map[] && OnceDue(due);
      ghost var fromFirst := fullCursor == 0 && forall u | u in s.users :: u >= 1;
      SweepAdvances(s.users, fullCursor, batch);
      var i := 0;
      while i < |due|
        invariant i <= |due|
        invariant sound ==> Startable(db.State(), limit, clock.last) && SameSources(s, db.State())
        invariant sound && active ==>
          ActiveAt(db.State(), limit)
            && (db.dirty == map[] || Rounds(|db.dirty|, batch) + i <= Rounds(|s.dirty|, batch))
        invariant sweeping ==> db.dirty == map[] && n >= 1
        invariant sweeping && i < n ==>
          (i > 0 ==> publisher.reconciliationRequired) && SweepCycles(|UsersAfter(s.users, fullCursor)|, batch) + i == n
        invariant sweeping && i >= n ==> !publisher.reconciliationRequired
        invariant sweeping && fromFirst ==> forall u | u in s.users && (i >= n || u <= fullCursor) ::
          Shows(publisher.store.Contents(), u, AllTimeStats(s.bookmarks, u, limit))
      {
        ghost var before, cursor := db.dirty, fullCursor;
        SweepAdvances(s.users, cursor, batch);
        var _ := RunCycle(due[i] || publisher.reconciliationRequired, clock, {});
        if sound {
          SubsetOfNone(before, db.dirty);
          RoundsAdvance(|before|, |db.dirty|, batch);
        }
        i := i + 1;
      }
      if sound && active && |due| >= Rounds(|s.dirty|, batch) {
        NoRoundsLeft(db.dirty, batch);
        DrainedIsUpToDate(db.State(), limit, clock.last);
      }
    }
  }

  /** Due at once, and not again. */
  ghost predicate OnceDue(due: seq<bool>) { due != [] && due[0] && forall i | 1 <= i < |due| :: !due[i] }

  lemma SweepAdvances(users: set<nat>, cursor: nat, batch: nat)
    requires batch >= 1
    ensures var left := UsersAfter(users, cursor); var page := First(left, batch);
      && |page| <= batch && SweepCycles(|left|, batch) >= 1
      && (|page| < batch ==> SweepCycles(|left|, batch) == 1 && forall u | u in users :: u <= cursor || u in page)
      && (|page| == batch ==>
            && SweepCycles(|UsersAfter(users, page[batch - 1])|, batch) + 1 == SweepCycles(|left|, batch)
            && SweepCycles(|UsersAfter(users, page[batch - 1])|, batch) >= 1
            && forall u | u in users && u <= page[batch - 1] :: u <= cursor || u in page)
  {
    hide UsersAfter, First;
    PageFits(UsersAfter(users, cursor), batch);
    FirstUsers(users, cursor, batch);
    UsersLeft(users, cursor, batch);
    SweepShrinks(|UsersAfter(users, cursor)|, batch);
    var page := First(UsersAfter(users, cursor), batch);
    if |page| == batch { SweepShrinks(|UsersAfter(users, page[batch - 1])|, batch); }
  }

  lemma SubsetOfNone(d: DirtyTable, d': DirtyTable)
    ensures d'.Keys <= d.Keys && d == map[] ==> d' == map[]
  {
    if d'.Keys <= d.Keys && d == map[] { assert d'.Keys == {}; }
  }

  lemma RoundsAdvance(n: nat, left: nat, batch: nat)
    requires batch >= 1
    ensures n >= 1 && (left + batch <= n || left == 0) ==> Rounds(left, batch) + 1 <= Rounds(n, batch)
  {
    hide Rounds;
    if n >= 1 && (left + batch <= n || left == 0) { RoundsShrink(n, left, batch); }
  }

  lemma NoRoundsLeft(d: DirtyTable, batch: nat)
    requires batch >= 1
    ensures Rounds(|d|, batch) == 0 ==> d == map[]
  {
    hide Rounds;
    if |d| >= 1 { RoundsShrink(|d|, 0, batch); }
  }

  lemma DrainedIsUpToDate(s: Store, version: nat, now: Instant)
    requires Startable(s, version, now) && ActiveAt(s, version) && s.dirty == map[]
    ensures forall k :: UpToDate(s, k)
  {
    hide Invariant;
    SettledIsUpToDate(s, version, now);
  }

  /** A sound state in which a projection phase of this version can run. */
  ghost predicate Startable(s: Store, version: nat, now: Instant) {
    Invariant(Moment(s, now)) && StartOrResume(s.baseline, version).Ok?
  }

  /** The worker can start on any database the projection has not been enabled on. */
  lemma InitialIsStartable(s: Store, version: nat, now: Instant)
    requires Initial(Moment(s, now))
    ensures Startable(s, version, now)
  {
    hide Invariant;
    InitialHolds(Moment(s, now));
  }

  lemma PageFits(list: seq<nat>, batch: nat)
    ensures |First(list, batch)| <= batch
  {
  }

  lemma StillActive(s: Store, after: Store, version: nat)
    ensures after.baseline == s.baseline ==> (ActiveAt(after, version) <==> ActiveAt(s, version))
  {
  }

  lemma SettlingEmpties(d: DirtyTable, d': DirtyTable)
    ensures Settles(d, d') && d == map[] ==> d' == map[]
  {
    if Settles(d, d') && d == map[] { assert d'.Keys == {}; }
  }

  lemma ShrinkingKeys(d: DirtyTable, d': DirtyTable, d'': DirtyTable)
    ensures Settles(d, d') && Shrinks(d', d'') ==> d''.Keys <= d.Keys
  {
  }

  lemma MarkersAreFresh(d: DirtyTable, batch: nat, todo: seq<nat>)
    ensures DistinctKeys(FirstMarkers(d, batch))
    ensures ValidTable(d) ==> Fresh(d, FirstMarkers(d, batch), todo)
  {
    FirstMarkersAre(d, batch);
  }
}
