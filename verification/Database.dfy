/**
 The statistics tables as one mutable database. Each method is one transaction of the service or the worker, written as
 the statements it executes; a method that fails part-way rolls its writes back. Every method is proved to leave exactly
 the state the transaction functions of Projection and Dirty give, so the theorems about those hold of the code here.
 */
module Database {
  import opened Orders
  import opened Calendar
  import opened Statistics
  import opened Dirty
  import opened Projection
  import opened ProjectionProofs

  /** What a projection transaction tells its caller. */
  datatype Report = Done | Postponed | Outdated | Missing | Raised(error: Error)

  function ReportOf(o: Outcome): Report {
    match o
    case Applied(_) => Done
    case Deferred => Postponed
    case Stale => Outdated
    case Absent => Missing
    case Refused(e) => Raised(e)
  }

  function Failure<T>(r: Result<T>): Option<Error> { if r.Ok? then None else Some(r.error) }

  function Overdue(working: map<Key, Calculation>, now: Instant): set<Key> {
    set k | k in working && WeekEnd(k.week) <= now
  }

  /** (window_end, user_id) in lexicographic order; a window's end determines its week. */
  predicate OverdueLe(a: Key, b: Key) { a.week < b.week || (a.week == b.week && a.user <= b.user) }

  lemma OverdueOrder()
    ensures TotalOrder(OverdueLe)
  {
  }

  /** observe_overdue, before its LIMIT. */
  function OverdueRows(working: map<Key, Calculation>, now: Instant): (rows: seq<Key>)
    ensures |rows| == |Overdue(working, now)| && forall k :: k in rows <==> k in Overdue(working, now)
    ensures forall i, j | 0 <= i < j < |rows| :: EndsFirst(rows[i], rows[j])
  {
    OverdueOrder();
    Sort(Overdue(working, now), OverdueLe)
  }

  /** The window ends earlier, or at the same time for a smaller user id. */
  predicate EndsFirst(a: Key, b: Key) {
    WeekEnd(a.week) < WeekEnd(b.week) || (WeekEnd(a.week) == WeekEnd(b.week) && a.user < b.user)
  }

  lemma FirstLeads(rows: seq<Key>, limit: nat)
    requires forall i, j | 0 <= i < j < |rows| :: EndsFirst(rows[i], rows[j])
    ensures forall x, k | x in First(rows, limit) && k in rows && k !in First(rows, limit) :: EndsFirst(x, k)
  {
    hide EndsFirst;
    var page := First(rows, limit);
    forall x, k | x in page && k in rows && k !in page ensures EndsFirst(x, k) {
      var i :| 0 <= i < |page| && page[i] == x;
      var j :| 0 <= j < |rows| && rows[j] == k;
      if j < |page| { assert page[j] == k; }
    }
  }

  function WithGenerations(d: DirtyTable, page: seq<Marked>): (markers: seq<(Key, nat)>)
    requires forall m | m in page :: m.key in d
    ensures |markers| == |page|
    ensures forall i | 0 <= i < |page| :: page[i] in page && markers[i] == (page[i].key, d[page[i].key].generation)
  {
    if page == [] then [] else
      var last := page[|page| - 1];
      assert last in page;
      WithGenerations(d, page[..|page| - 1]) + [(last.key, d[last.key].generation)]
  }

  lemma FirstIsPart<T>(list: seq<T>, limit: nat)
    ensures forall x | x in First(list, limit) :: x in list
  {
  }

  /** The observed page: the oldest marked keys with their generations. */
  function FirstMarkers(d: DirtyTable, limit: nat): seq<(Key, nat)> {
    FirstIsPart(OldestFirst(d), limit);
    WithGenerations(d, First(OldestFirst(d), limit))
  }

  lemma FirstMarkersAre(d: DirtyTable, limit: nat)
    ensures var markers := FirstMarkers(d, limit);
      && |markers| == (if |d| < limit then |d| else limit)
      && (forall i | 0 <= i < |markers| :: markers[i].0 == OldestFirst(d)[i].key)
      && (forall x | x in markers :: x.0 in d && x.1 == d[x.0].generation)
      && (forall i, j | 0 <= i < j < |markers| :: markers[i].0 != markers[j].0)
  {
    hide Sort, MarkedRows, OlderLe;
    FirstIsPart(OldestFirst(d), limit);
    var list := OldestFirst(d);
    forall i, j | 0 <= i < j < |list| ensures list[i].key != list[j].key {
      assert list[i] in list && list[j] in list;
    }
  }

  /** A row comes no later than another in the order of mark times, users and weeks. */
  predicate MarkedFirst(d: DirtyTable, k: Key, other: Key)
    requires k in d && other in d
  {
    var (at, at') := (d[k].markedAt, d[other].markedAt);
    at < at' || (at == at' && (k.user < other.user || (k.user == other.user && k.week <= other.week)))
  }

  lemma MarkedFirstIsOlder(d: DirtyTable, k: Key, other: Key)
    requires k in d && other in d
    ensures MarkedFirst(d, k, other) <==> OlderLe(Marked(d[k].markedAt, k), Marked(d[other].markedAt, other))
  {
  }

  /** The observed page is in order, and no row left off it comes before one on it. */
  lemma FirstMarkersLead(d: DirtyTable, limit: nat)
    ensures var markers := FirstMarkers(d, limit);
      && (forall x | x in markers :: x.0 in d)
      && (forall i, j | 0 <= i < j < |markers| :: MarkedFirst(d, markers[i].0, markers[j].0))
      && (forall x, k | x in markers && k in d && (k, d[k].generation) !in markers :: MarkedFirst(d, x.0, k))
  {
    hide FirstMarkers, Sort, MarkedRows, OlderLe, MarkedFirst;
    FirstMarkersAre(d, limit);
    var markers, list := FirstMarkers(d, limit), OldestFirst(d);
    forall k, other | k in d && other in d
      ensures MarkedFirst(d, k, other) <==> OlderLe(Marked(d[k].markedAt, k), Marked(d[other].markedAt, other))
    {
      MarkedFirstIsOlder(d, k, other);
    }
    forall i | 0 <= i < |markers|
      ensures list[i] == Marked(d[markers[i].0].markedAt, markers[i].0)
      ensures (list[i].key, d[list[i].key].generation) in markers
    {
      assert list[i] in list && markers[i] in markers;
    }
    forall x, k | x in markers && k in d && (k, d[k].generation) !in markers ensures MarkedFirst(d, x.0, k) {
      var i :| 0 <= i < |markers| && markers[i] == x;
      assert Marked(d[k].markedAt, k) in list;
      var j :| 0 <= j < |list| && list[j] == Marked(d[k].markedAt, k);
    }
  }

  lemma {:induction false} PageError(t: Table, rows: Rows, version: nat, page: seq<Key>, now: Instant, i: nat)
    requires i <= |page| && PersistPage(t, rows, version, page[..i], now).Err?
    ensures PersistPage(t, rows, version, page, now) == PersistPage(t, rows, version, page[..i], now)
  {
    hide PersistCandidate;
    if i < |page| {
      assert page[..|page| - 1][..i] == page[..i];
      PageError(t, rows, version, page[..|page| - 1], now, i);
    } else {
      assert page[..i] == page;
    }
  }

  class StatsDatabase {
    var users: set<nat>
    var bookmarks: Table
    var dirty: DirtyTable
    var working: map<Key, Calculation>
    var points: seq<Point>
    var baseline: Option<Baseline>

    function State(): Store
      reads this
    {
      Store(users, bookmarks, dirty, working, points, baseline)
    }

    constructor ()
      ensures State() == Store({}, map[], map[], map[], [], None)
      ensures forall now :: Initial(Moment(State(), now)) && Invariant(Moment(State(), now))
    {
      users, bookmarks, dirty, working, points, baseline := {}, map[], map[], map[], [], None;
    }

    method Rollback(saved: Store)
      modifies this
      ensures State() == saved
    {
      users, bookmarks, dirty := saved.users, saved.bookmarks, saved.dirty;
      working, points, baseline := saved.working, saved.points, saved.baseline;
    }

    // -------------------------------------------------------------- dirty markers

    method MarkDirty(user: nat, created: Instant, markedAt: Instant)
      modifies `dirty
      ensures dirty == Mark(old(dirty), Key(user, WeekOf(created)), markedAt)
    {
      var k := Key(user, WeekOf(created));
      if k in dirty {
        var row := dirty[k].(current := 0, projection := 0, markedAt := markedAt);
        dirty := dirty[k := row.(generation := row.generation + 1)];
      } else {
        dirty := dirty[k := DirtyRow(1, 0, 0, markedAt)];
      }
    }

    /** The guarded UPDATE, then the guarded DELETE. */
    method AcknowledgeOne(consumer: Consumer, k: Key, generation: nat) returns (status: Acknowledgement)
      modifies `dirty
      ensures (dirty, status) == Acknowledge(old(dirty), consumer, k, generation)
    {
      if k !in dirty || dirty[k].generation != generation { return Acknowledgement.Stale; }
      if consumer == Current {
        dirty := dirty[k := dirty[k].(current := generation)];
      } else {
        dirty := dirty[k := dirty[k].(projection := generation)];
      }
      assert dirty == old(dirty)[k := Complete(old(dirty)[k], consumer)];
      if dirty[k].current != generation || dirty[k].projection != generation { return Acknowledged; }
      dirty := dirty - {k};
      assert dirty == old(dirty) - {k};
      status := Deleted;
    }

    /** The acknowledgements of one user's refresh: all of them, or none. */
    method AcknowledgeCurrent(acks: seq<(Key, nat)>) returns (done: bool)
      modifies `dirty
      ensures done == AcknowledgeAll(old(dirty), acks).Some?
      ensures dirty == if done then AcknowledgeAll(old(dirty), acks).value else old(dirty)
    {
      var saved := dirty;
      var i := 0;
      while i < |acks|
        invariant i <= |acks|
        invariant AcknowledgeAll(saved, acks) == AcknowledgeAll(dirty, acks[i..])
      {
        assert acks[i..][1..] == acks[i + 1..];
        var status := AcknowledgeOne(Current, acks[i].0, acks[i].1);
        if status == Acknowledgement.Stale {
          dirty := saved;
          return false;
        }
        i := i + 1;
      }
      assert acks[i..] == [] && AcknowledgeAll(dirty, acks[i..]) == Some(dirty);
      done := true;
    }

    /** One page of markers: as many as the limit allows, each row once with its generation, the oldest marked first,
        and none left out that comes before one on the page. */
    method Observe(limit: nat) returns (markers: seq<(Key, nat)>)
      ensures markers == FirstMarkers(dirty, limit)
      ensures |markers| == if |dirty| < limit then |dirty| else limit
      ensures forall x | x in markers :: x.0 in dirty && x.1 == dirty[x.0].generation
      ensures forall i, j | 0 <= i < j < |markers| ::
        markers[i].0 != markers[j].0 && MarkedFirst(dirty, markers[i].0, markers[j].0)
      ensures forall x, k | x in markers && k in dirty && (k, dirty[k].generation) !in markers ::
        MarkedFirst(dirty, x.0, k)
    {
      hide FirstMarkers, OldestFirst, MarkedFirst;
      FirstMarkersAre(dirty, limit);
      FirstMarkersLead(dirty, limit);
      markers := FirstMarkers(dirty, limit);
    }

    // -------------------------------------------------------------- bookmark mutations

    method CreateBookmark(id: nat, row: Bookmark) returns (error: Option<Error>)
      modifies this
      ensures State() == Committed(old(State()), Create(old(State()), id, row))
      ensures error == Failure(Create(old(State()), id, row))
      ensures error.Some? <==> old(row.user !in users || id in bookmarks)
      ensures if error.None? then Stored(old(State()), State(), id, row) else State() == old(State())
    {
      if row.user !in users || id in bookmarks { return Some(IntegrityFailure); }
      bookmarks := bookmarks[id := row];
      MarkDirty(row.user, row.createdAt, row.createdAt);
      error := None;
    }

    /** Only the fields that change materially are written, together with the update time. */
    method UpdateBookmark(user: nat, id: nat, patch: Patch, observed: Instant) returns (error: Option<Error>)
      modifies this
      ensures State() == Committed(old(State()), PatchBookmark(old(State()), user, id, patch, observed))
      ensures error == Failure(PatchBookmark(old(State()), user, id, patch, observed))
    {
      if id !in bookmarks || bookmarks[id].user != user { return Some(NotFound); }
      var current := bookmarks[id];
      var target := Target(current, patch);
      if target == current { return None; }
      var row := current.(updatedAt := NextUpdatedAt(current.updatedAt, observed));
      if target.url != current.url { row := row.(url := target.url); }
      if target.title != current.title { row := row.(title := target.title); }
      if target.description != current.description { row := row.(description := target.description); }
      if target.tags != current.tags { row := row.(tags := target.tags); }
      bookmarks := bookmarks[id := row];
      MarkDirty(user, current.createdAt, row.updatedAt);
      error := None;
    }

    method DeleteBookmark(user: nat, id: nat, observed: Instant) returns (error: Option<Error>)
      modifies this
      ensures State() == Committed(old(State()), Delete(old(State()), user, id, observed))
      ensures error == Failure(Delete(old(State()), user, id, observed))
      ensures error.Some? <==> old(id !in bookmarks || bookmarks[id].user != user)
      ensures if error.None? then Removed(old(State()), State(), id) else State() == old(State())
    {
      if id !in bookmarks || bookmarks[id].user != user { return Some(NotFound); }
      var createdAt := bookmarks[id].createdAt;
      bookmarks := bookmarks - {id};
      MarkDirty(user, createdAt, observed);
      error := None;
    }

    // -------------------------------------------------------------- points and working rows

    method Append(k: Key, revision: nat, supersedes: Option<nat>, c: Calculation) returns (error: Option<Error>)
      modifies `points
      ensures error == Failure(AppendPoint(old(points), k, revision, supersedes, c))
      ensures points == if error.None? then AppendPoint(old(points), k, revision, supersedes, c).value else old(points)
    {
      var current := EffectivePoint(points, k);
      if revision == 1 {
        if current.Some? || supersedes.Some? { return Some(BrokenChain); }
      } else if current.None? || revision != current.value.revision + 1 || supersedes != Some(current.value.id) {
        return Some(BrokenChain);
      }
      points := points + [Point(|points| + 1, k, revision, supersedes, c)];
      error := None;
    }

    method Persist(k: Key, c: Calculation) returns (error: Option<Error>)
      modifies `points
      ensures error == Failure(PersistDeveloped(old(points), k, c))
      ensures points == if error.None? then PersistDeveloped(old(points), k, c).value else old(points)
    {
      var existing := EffectivePoint(points, k);
      if existing.None? {
        error := Append(k, 1, None, c);
        return;
      }
      var comparison := CompareHashes(existing.value.calculation, c);
      if comparison == Incomparable { return Some(VersionMismatch); }
      if comparison == Same { return None; }
      error := Append(k, existing.value.revision + 1, Some(existing.value.id), c);
    }

    method EnsureCurrentWorking(version: nat, user: nat, now: Instant) returns (error: Option<Error>)
      modifies `working
      ensures State() == Committed(old(State()), EnsureCurrent(old(State()), version, user, now))
      ensures error == Failure(EnsureCurrent(old(State()), version, user, now))
    {
      if user !in users { return None; }
      var k := Key(user, WeekOf(now));
      if k in working { return if working[k].version != version then Some(VersionMismatch) else None; }
      working := working[k := Calculate(bookmarks, version, k)];
      error := None;
    }

    /** The part process_dirty and process_overdue share; on an error its writes are still to be rolled back. */
    method Close(version: nat, k: Key, now: Instant) returns (error: Option<Error>)
      modifies `points, `working
      ensures error == Failure(Develop(old(State()), version, k, now))
      ensures error.None? ==> State() == Develop(old(State()), version, k, now).value
    {
      error := Persist(k, Calculate(bookmarks, version, k));
      if error.Some? { return; }
      working := working - {k};
      error := EnsureCurrentWorking(version, k.user, now);
    }

    // -------------------------------------------------------------- the projection steps

    /** An ended week is closed; a developing one is replaced. */
    method Renew(version: nat, k: Key, now: Instant) returns (error: Option<Error>)
      modifies `points, `working
      ensures error == Failure(Refresh(old(State()), version, k, now))
      ensures error.None? ==> State() == Refresh(old(State()), version, k, now).value
    {
      hide Develop;
      if WeekEnd(k.week) <= now {
        error := Close(version, k, now);
      } else {
        var calculation := Calculate(bookmarks, version, k);
        if k in working && working[k].version != calculation.version { return Some(VersionMismatch); }
        working := working[k := calculation];
        error := None;
      }
    }

    method ApplyDirty(version: nat, k: Key, generation: nat, now: Instant) returns (report: Report)
      modifies this
      ensures State() == After(old(State()), ProcessDirty(old(State()), version, k, generation, now))
      ensures report == ReportOf(ProcessDirty(old(State()), version, k, generation, now))
      ensures report == Done ==> old(k in dirty && dirty[k].generation == generation)
      ensures report == Outdated ==> State() == old(State()) && old(k !in dirty || dirty[k].generation != generation)
      ensures report.Raised? ==> State() == old(State())
      ensures !report.Postponed? && !report.Missing?
    {
      hide Refresh;
      var saved := State();
      if WeekStart(k.week) > now { return Raised(BadCandidate); }
      var inactive := RequireActive(baseline, version);
      if inactive.Some? { return Raised(inactive.value); }
      var error := Renew(version, k, now);
      if error.Some? {
        Rollback(saved);
        return Raised(error.value);
      }
      var status := AcknowledgeOne(Consumer.Projection, k, generation);
      if status == Acknowledgement.Stale {
        Rollback(saved);
        return Outdated;
      }
      report := Done;
    }

    method ApplyOverdue(version: nat, k: Key, now: Instant) returns (report: Report)
      modifies this
      ensures State() == After(old(State()), ProcessOverdue(old(State()), version, k, now))
      ensures report == ReportOf(ProcessOverdue(old(State()), version, k, now))
      ensures report == Done ==> old(k in working) && WeekEnd(k.week) <= now
      ensures report == Missing ==> State() == old(State()) && old(k !in working)
      ensures report == Postponed ==>
        State() == old(State()) && old(k in working && PendingFor(dirty, Consumer.Projection, k))
      ensures report.Raised? ==> State() == old(State())
      ensures !report.Outdated?
    {
      hide Develop;
      var saved := State();
      var inactive := RequireActive(baseline, version);
      if inactive.Some? { return Raised(inactive.value); }
      if k !in working { return Missing; }
      if WeekEnd(k.week) > now { return Raised(BadCandidate); }
      if working[k].version != version { return Raised(VersionMismatch); }
      if k in dirty && dirty[k].projection != dirty[k].generation { return Postponed; }
      var error := Close(version, k, now);
      if error.Some? {
        Rollback(saved);
        return Raised(error.value);
      }
      report := Done;
    }

    /** One page of developing rows whose week has ended. */
    method ObserveOverdue(now: Instant, limit: nat) returns (page: seq<Key>)
      ensures page == First(OverdueRows(working, now), limit)
      ensures forall k | k in page :: k in working && WeekEnd(k.week) <= now
      ensures |page| == if |Overdue(working, now)| < limit then |Overdue(working, now)| else limit
      ensures forall i, j | 0 <= i < j < |page| :: EndsFirst(page[i], page[j])
      ensures forall x, k | x in page && k in working && WeekEnd(k.week) <= now && k !in page :: EndsFirst(x, k)
      ensures |Overdue(working, now)| <= limit ==> forall k | k in Overdue(working, now) :: k in page
    {
      hide EndsFirst, OverdueRows;
      FirstIsPart(OverdueRows(working, now), limit);
      FirstLeads(OverdueRows(working, now), limit);
      page := First(OverdueRows(working, now), limit);
    }

    // -------------------------------------------------------------- the baseline

    method Start(version: nat) returns (error: Option<Error>)
      modifies `baseline
      ensures error == Failure(StartOrResume(old(baseline), version))
      ensures error.None? ==> baseline == Some(StartOrResume(old(baseline), version).value)
    {
      if baseline.None? { baseline := Some(Baseline(Pending, version, None)); }
      var b := baseline.value;
      if b.version != version { return Some(VersionMismatch); }
      if b.status == Failed { return Some(WrongTransition); }
      if b.status == Pending { baseline := Some(b.(status := Running)); }
      error := None;
    }

    method Seed(version: nat, k: Key, now: Instant) returns (error: Option<Error>)
      modifies `points, `working
      ensures var r := PersistCandidate(bookmarks, old(Rows(working, points)), version, k, now);
        error == Failure(r) && (r.Ok? ==> Rows(working, points) == r.value)
    {
      if WeekStart(k.week) > now { return Some(BadCandidate); }
      var calculation := Calculate(bookmarks, version, k);
      if WeekEnd(k.week) <= now {
        var existing := EffectivePoint(points, k);
        if existing.None? {
          error := Append(k, 1, None, calculation);
        } else {
          error := if CompareHashes(existing.value.calculation, calculation) == Incomparable
            then Some(VersionMismatch) else None;
        }
      } else {
        if k in working && working[k].version != version { return Some(VersionMismatch); }
        working := working[k := calculation];
        error := None;
      }
    }

    method SeedPage(version: nat, page: seq<Key>, now: Instant) returns (error: Option<Error>)
      modifies `points, `working
      ensures var r := PersistPage(bookmarks, old(Rows(working, points)), version, page, now);
        error == Failure(r) && (r.Ok? ==> Rows(working, points) == r.value)
    {
      hide PersistCandidate;
      ghost var rows := Rows(working, points);
      error := None;
      var i := 0;
      while i < |page|
        invariant i <= |page| && error == None
        invariant PersistPage(bookmarks, rows, version, page[..i], now) == Ok(Rows(working, points))
      {
        assert page[..i + 1][..i] == page[..i];
        error := Seed(version, page[i], now);
        if error.Some? {
          PageError(bookmarks, rows, version, page, now, i + 1);
          return;
        }
        i := i + 1;
      }
      assert page[..i] == page;
    }

    /** One bounded page; any failure undoes the whole page, the start included. */
    method RunStep(version: nat, batch: nat, now: Instant) returns (error: Option<Error>)
      requires batch >= 1
      modifies this
      ensures State() == Committed(old(State()), BaselineStep(old(State()), version, batch, now))
      ensures error == Failure(BaselineStep(old(State()), version, batch, now))
    {
      hide PersistPage, Candidates;
      var saved := State();
      error := Start(version);
      if error.Some? {
        Rollback(saved);
        return;
      }
      if baseline.value.status == Active { return; }
      var candidates := First(Candidates(bookmarks, baseline.value.checkpoint), batch + 1);
      var page := First(candidates, batch);
      assert page == First(Candidates(bookmarks, baseline.value.checkpoint), batch);
      error := SeedPage(version, page, now);
      if error.Some? {
        Rollback(saved);
        return;
      }
      if page != [] { baseline := Some(baseline.value.(checkpoint := Some(page[|page| - 1]))); }
      if |candidates| <= batch { baseline := Some(baseline.value.(status := Active)); }
    }
  }
}
