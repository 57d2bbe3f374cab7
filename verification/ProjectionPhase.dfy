/** The worker's projection phase over the mutable database, with a clock reading for each transaction. */
module ProjectionPhase {
  import opened Orders
  import opened Calendar
  import opened Statistics
  import opened Dirty
  import opened Projection
  import opened ProjectionProofs
  import opened Database

  /** A clock whose readings never go back. */
  class Clock {
    var last: Instant

    constructor (start: Instant)
      ensures last == start
    {
      last := start;
    }

    method Now() returns (now: Instant)
      modifies this
      ensures now == last && last >= old(last)
    {
      now :| now >= last;
      last := now;
    }
  }

  // ---------------------------------------------------------------- one transaction

  /** An active projection of this version in a sound state. */
  ghost predicate Settled(s: Store, version: nat, now: Instant) { Invariant(Moment(s, now)) && ActiveAt(s, version) }

  /** The phase writes no user and no bookmark. */
  ghost predicate SameSources(s: Store, after: Store) { after.users == s.users && after.bookmarks == s.bookmarks }

  lemma TimePasses(s: Store, now: Instant, later: Instant)
    requires Invariant(Moment(s, now)) && now <= later
    ensures Invariant(Moment(s, later))
  {
    hide Invariant;
    StepKeeps(Moment(s, now), Tick(later));
  }

  /** Nothing is added to the table, and nothing the current consumer relies on changes. */
  ghost predicate Shrinks(d: DirtyTable, d': DirtyTable) {
    && d'.Keys <= d.Keys
    && (forall k | k in d' :: d'[k].generation == d[k].generation && d'[k].markedAt == d[k].markedAt)
    && (forall k :: PendingFor(d', Current, k) == PendingFor(d, Current, k))
  }

  ghost predicate SameRow(d: DirtyTable, d': DirtyTable, k: Key) { (k in d' <==> k in d) && (k in d ==> d'[k] == d[k]) }

  /** A current marker ends its key's projection work; a stale one leaves its row alone. */
  ghost predicate Consumed(d: DirtyTable, d': DirtyTable, k: Key, generation: nat) {
    if k in d && d[k].generation == generation then !PendingFor(d', Consumer.Projection, k) else SameRow(d, d', k)
  }

  /** A step run at `now` leaves no row overdue at an earlier time that was not there. */
  lemma RowsLeft(s: Store, version: nat, k: Key, now: Instant, at: Instant)
    requires at <= now
    ensures Develop(s, version, k, now).Ok? ==>
      Overdue(Develop(s, version, k, now).value.working, at) <= Overdue(s.working, at) - {k}
    ensures Refresh(s, version, k, now).Ok? ==>
      Overdue(Refresh(s, version, k, now).value.working, at) <= Overdue(s.working, at)
  {
    hide WeeklyStats, PersistDeveloped;
    WindowsPartition(now, WeekOf(now));
  }

  lemma MarkerSettles(s: Store, version: nat, k: Key, g: nat, now: Instant, at: Instant)
    requires Settled(s, version, now) && WeekStart(k.week) <= now && at <= now
    ensures var o := ProcessDirty(s, version, k, g, now); var after := After(s, o);
      && !o.Refused? && Settled(after, version, now) && SameSources(s, after)
      && Overdue(after.working, at) <= Overdue(s.working, at)
      && Shrinks(s.dirty, after.dirty) && Consumed(s.dirty, after.dirty, k, g)
      && forall j | j != k :: SameRow(s.dirty, after.dirty, j)
  {
    hide Chained, WeeklyStats, Refresh, SoundRows, Projected;
    ProcessDirtyEffect(Moment(s, now), version, k, g);
    AcknowledgeEffect(s.dirty, Consumer.Projection, k, g);
    RowsLeft(s, version, k, now, at);
    var o := ProcessDirty(s, version, k, g, now);
    if o.Applied? {
      forall j | j != k ensures PendingFor(o.store.dirty, Current, j) == PendingFor(s.dirty, Current, j) {}
    }
  }

  lemma OverdueSettles(s: Store, version: nat, k: Key, now: Instant, at: Instant)
    requires Settled(s, version, now) && WeekEnd(k.week) <= now && at <= now
    ensures var o := ProcessOverdue(s, version, k, now); var after := After(s, o);
      && !o.Refused? && Settled(after, version, now) && after.dirty == s.dirty && SameSources(s, after)
      && Overdue(after.working, at) <= Overdue(s.working, at)
      && (!PendingFor(s.dirty, Consumer.Projection, k) ==> k !in Overdue(after.working, at))
  {
    hide Chained, WeeklyStats, Develop, SoundRows, Projected;
    ProcessOverdueEffect(Moment(s, now), version, k);
    RowsLeft(s, version, k, now, at);
  }

  // ---------------------------------------------------------------- the two loops

  ghost predicate DistinctKeys(markers: seq<(Key, nat)>) {
    forall i, j | 0 <= i < j < |markers| :: markers[i].0 != markers[j].0
  }

  /** What the dirty loop has done after its first `n` markers. */
  ghost predicate Applied(d: DirtyTable, d': DirtyTable, markers: seq<(Key, nat)>, n: nat)
    requires n <= |markers|
  {
    && Shrinks(d, d')
    && (forall j | 0 <= j < n :: Consumed(d, d', markers[j].0, markers[j].1))
    && (forall k | (forall j | 0 <= j < n :: markers[j].0 != k) :: SameRow(d, d', k))
  }

  lemma AppliesNext(d: DirtyTable, d': DirtyTable, d'': DirtyTable, markers: seq<(Key, nat)>, n: nat)
    requires n < |markers| && DistinctKeys(markers) && Applied(d, d', markers, n)
    requires Shrinks(d', d'') && Consumed(d', d'', markers[n].0, markers[n].1)
    requires forall j | j != markers[n].0 :: SameRow(d', d'', j)
    ensures Applied(d, d'', markers, n + 1)
  {
    assert forall j | 0 <= j < n :: markers[j].0 != markers[n].0;
    assert SameRow(d, d', markers[n].0);
    forall j | 0 <= j < n + 1 ensures Consumed(d, d'', markers[j].0, markers[j].1) {
      if j < n { assert Consumed(d, d', markers[j].0, markers[j].1) && SameRow(d', d'', markers[j].0); }
    }
    forall k | (forall j | 0 <= j < n + 1 :: markers[j].0 != k) ensures SameRow(d, d'', k) {
      assert forall j | 0 <= j < n :: markers[j].0 != k;
      assert markers[n].0 != k;
      assert SameRow(d, d', k) && SameRow(d', d'', k);
    }
  }

  lemma NothingApplied(d: DirtyTable, markers: seq<(Key, nat)>)
    ensures Applied(d, d, markers, 0)
  {
  }

  /** The dirty loop: one transaction a marker, stopping at the first error. From a settled state there is none: current
      markers are done with, stale ones have no effect. */
  method ApplyMarkers(db: StatsDatabase, version: nat, markers: seq<(Key, nat)>, clock: Clock) returns (ok: bool)
    modifies db, clock
    ensures clock.last >= old(clock.last)
    ensures old(Settled(db.State(), version, clock.last) && DistinctKeys(markers)
                && forall x | x in markers :: WeekStart(x.0.week) <= clock.last) ==>
      && ok && Settled(db.State(), version, clock.last) && SameSources(old(db.State()), db.State())
      && Overdue(db.working, old(clock.last)) <= old(Overdue(db.working, clock.last))
      && Applied(old(db.dirty), db.dirty, markers, |markers|)
  {
    hide Settled, ProcessDirty, Applied, Shrinks, Consumed, SameRow, Overdue;
    ok := true;
    ghost var start := clock.last;
    ghost var sound := Settled(db.State(), version, start) && DistinctKeys(markers)
                       && forall x | x in markers :: WeekStart(x.0.week) <= start;
    ghost var initial, dirty, overdue := db.State(), db.dirty, Overdue(db.working, start);
    NothingApplied(dirty, markers);
    var i := 0;
    while i < |markers|
      invariant i <= |markers| && ok && clock.last >= start
      invariant sound ==>
        && Settled(db.State(), version, clock.last) && SameSources(initial, db.State())
        && Overdue(db.working, start) <= overdue && Applied(dirty, db.dirty, markers, i)
    {
      ghost var before, earlier := db.State(), clock.last;
      var now := clock.Now();
      var report := db.ApplyDirty(version, markers[i].0, markers[i].1, now);
      if sound {
        SettledLater(before, version, earlier, now);
        MarkerSettles(before, version, markers[i].0, markers[i].1, now, start);
        AppliesNext(dirty, before.dirty, db.dirty, markers, i);
      }
      if report.Raised? { return false; }
      i := i + 1;
    }
  }

  lemma SettledLater(s: Store, version: nat, now: Instant, later: Instant)
    requires Settled(s, version, now) && now <= later
    ensures Settled(s, version, later)
  {
    hide Invariant;
    TimePasses(s, now, later);
  }

  ghost predicate AllEnded(page: seq<Key>, at: Instant) { forall k | k in page :: WeekEnd(k.week) <= at }

  /** The overdue loop: every observed row that is not pending is finalised. */
  method CloseOverdue(
      db: StatsDatabase, version: nat, page: seq<Key>, clock: Clock, ghost at: Instant) returns (ok: bool)
    modifies db, clock
    ensures clock.last >= old(clock.last)
    ensures old(Settled(db.State(), version, clock.last)) && at <= old(clock.last) && AllEnded(page, at) ==>
      && ok && Settled(db.State(), version, clock.last) && SameSources(old(db.State()), db.State())
        && db.dirty == old(db.dirty)
      && Overdue(db.working, at) <= old(Overdue(db.working, at))
      && (forall k | k in page && !PendingFor(db.dirty, Consumer.Projection, k) :: k !in Overdue(db.working, at))
  {
    hide Settled, ProcessOverdue, Overdue;
    ok := true;
    ghost var start := clock.last;
    ghost var sound := Settled(db.State(), version, start) && at <= start && AllEnded(page, at);
    ghost var initial, dirty, overdue := db.State(), db.dirty, Overdue(db.working, at);
    var i := 0;
    while i < |page|
      invariant i <= |page| && ok && clock.last >= start
      invariant sound ==>
        && Settled(db.State(), version, clock.last) && SameSources(initial, db.State()) && db.dirty == dirty
        && Overdue(db.working, at) <= overdue
        && (forall j | 0 <= j < i && !PendingFor(db.dirty, Consumer.Projection, page[j]) ::
          page[j] !in Overdue(db.working, at))
    {
      ghost var before, earlier := db.State(), clock.last;
      var now := clock.Now();
      var report := db.ApplyOverdue(version, page[i], now);
      if sound {
        SettledLater(before, version, earlier, now);
        OverdueSettles(before, version, page[i], now, at);
      }
      if report.Raised? { return false; }
      i := i + 1;
    }
  }

  // ---------------------------------------------------------------- one phase

  function StillPending(d: DirtyTable, markers: seq<(Key, nat)>): (pending: seq<(Key, nat)>)
    ensures forall x :: x in pending <==> x in markers && PendingFor(d, Consumer.Projection, x.0)
    ensures DistinctKeys(markers) ==> DistinctKeys(pending)
  {
    if markers == [] then [] else
      assert markers == [markers[0]] + markers[1..];
      (if PendingFor(d, Consumer.Projection, markers[0].0) then [markers[0]] else []) + StillPending(d, markers[1..])
  }

  lemma MarkedWeeksHaveBegun(s: Store, version: nat, now: Instant, markers: seq<(Key, nat)>)
    requires Settled(s, version, now) && forall x | x in markers :: x.0 in s.dirty
    ensures forall x | x in markers :: WeekStart(x.0.week) <= now
  {
    hide Chained, SoundRows, Projected;
  }

  /** Applied to the pending part of an observed page, the loop leaves none of the page pending. */
  lemma PageConsumed(d: DirtyTable, d': DirtyTable, page: seq<(Key, nat)>)
    requires forall x | x in page :: x.0 in d && x.1 == d[x.0].generation
    requires var pending := StillPending(d, page); Applied(d, d', pending, |pending|)
    ensures Shrinks(d, d') && forall x | x in page :: !PendingFor(d', Consumer.Projection, x.0)
  {
    var pending := StillPending(d, page);
    forall x | x in page ensures !PendingFor(d', Consumer.Projection, x.0) {
      if x in pending {
        var j :| 0 <= j < |pending| && pending[j] == x;
        assert Consumed(d, d', pending[j].0, pending[j].1);
      } else {
        forall j | 0 <= j < |pending| ensures pending[j].0 != x.0 {
          assert pending[j] in pending;
        }
        assert SameRow(d, d', x.0);
      }
    }
  }

  /** After the baseline: the markers of one page, then the rows overdue at the reading `at`. */
  method ProcessBacklog(db: StatsDatabase, version: nat, batch: nat, clock: Clock) returns (ok: bool, ghost at: Instant)
    modifies db, clock
    ensures old(clock.last) <= at <= clock.last
    ensures old(Settled(db.State(), version, clock.last)) ==>
      && ok && Settled(db.State(), version, clock.last) && SameSources(old(db.State()), db.State())
      && Shrinks(old(db.dirty), db.dirty)
      && (forall x | x in FirstMarkers(old(db.dirty), batch) :: !PendingFor(db.dirty, Consumer.Projection, x.0))
      && Overdue(db.working, at) <= old(Overdue(db.working, at))
      && (old(|Overdue(db.working, at)|) <= batch ==>
            forall k | k in Overdue(db.working, at) :: PendingFor(db.dirty, Consumer.Projection, k))
  {
    hide Settled, OverdueRows, Applied, Shrinks, Overdue, StillPending, FirstMarkers, PendingFor;
    ghost var s, start := db.State(), clock.last;
    ghost var sound := Settled(s, version, start);
    var observed := db.Observe(batch);
    var markers := StillPending(db.dirty, observed);
    var now := clock.Now();
    at := now;
    var overdue := db.ObserveOverdue(now, batch);
    FirstMarkersAre(s.dirty, batch);
    if sound {
      SettledLater(s, version, start, now);
      MarkedWeeksHaveBegun(s, version, now, observed);
    }
    ok := ApplyMarkers(db, version, markers, clock);
    if !ok { return; }
    if sound { PageConsumed(s.dirty, db.dirty, observed); }
    OverdueHasEnded(s.working, now, overdue);
    ok := CloseOverdue(db, version, overdue, clock, now);
  }

  lemma OverdueHasEnded(working: map<Key, Calculation>, now: Instant, page: seq<Key>)
    ensures (forall k | k in page :: k in Overdue(working, now)) ==> AllEnded(page, now)
  {
  }

  /** What a baseline step leaves for the rest of the phase. */
  lemma StepSettles(s: Store, version: nat, batch: nat, now: Instant)
    requires Invariant(Moment(s, now)) && batch >= 1 && StartOrResume(s.baseline, version).Ok?
    ensures var r := BaselineStep(s, version, batch, now);
      && r.Ok? && Invariant(Moment(r.value, now)) && r.value.dirty == s.dirty && SameSources(s, r.value)
      && r.value.baseline.Some? && r.value.baseline.value.version == version && r.value.baseline.value.status != Failed
      && (r.value.baseline.value.status == Active ==> Settled(r.value, version, now))
      && (ActiveAt(s, version) ==> r.value == s)
  {
    hide Invariant, PersistPage, Candidates;
    BaselineEffect(Moment(s, now), version, batch);
  }

  lemma SettledIsUpToDate(s: Store, version: nat, now: Instant)
    requires Settled(s, version, now)
    ensures forall k | !PendingFor(s.dirty, Consumer.Projection, k) :: UpToDate(s, k)
  {
    hide SoundRows, SoundSources, UpToDate, PendingFor;
    forall k | !PendingFor(s.dirty, Consumer.Projection, k) ensures UpToDate(s, k) { assert Covered(s, k); }
  }

  /** From any reachable state with a baseline of this version that has not failed, the phase succeeds. Once active it
      ends the projection work of the oldest `batch` marked keys, so those show their live payload; with no more
      overdue rows at its reading `at` than the batch, only pending ones are left. */
  method RunProjectionPhase(db: StatsDatabase, version: nat, batch: nat, clock: Clock)
    returns (ok: bool, active: bool, ghost at: Instant)
    requires batch >= 1
    modifies db, clock
    ensures old(clock.last) <= at <= clock.last
    ensures old(Invariant(Moment(db.State(), clock.last)) && StartOrResume(db.baseline, version).Ok?) ==>
      && ok && Invariant(Moment(db.State(), clock.last)) && SameSources(old(db.State()), db.State())
      && StartOrResume(db.baseline, version).Ok? && Shrinks(old(db.dirty), db.dirty)
      && (active <==> ActiveAt(db.State(), version)) && (old(ActiveAt(db.State(), version)) ==> active)
      && (active ==> forall k | !PendingFor(db.dirty, Consumer.Projection, k) :: UpToDate(db.State(), k))
      && (active ==> forall x | x in FirstMarkers(old(db.dirty), batch) ::
        !PendingFor(db.dirty, Consumer.Projection, x.0))
      && (old(ActiveAt(db.State(), version) && |Overdue(db.working, at)| <= batch) ==>
            forall k | k in Overdue(db.working, at) :: PendingFor(db.dirty, Consumer.Projection, k))
  {
    hide Invariant, Settled, BaselineStep, UpToDate, StartOrResume, Shrinks, FirstMarkers, PendingFor, Overdue;
    ghost var s, start := db.State(), clock.last;
    ghost var sound := Invariant(Moment(s, start)) && StartOrResume(s.baseline, version).Ok?;
    var now := clock.Now();
    at := now;
    if sound {
      TimePasses(s, start, now);
      StepSettles(s, version, batch, now);
      Unshrunk(s.dirty);
    }
    var error := db.RunStep(version, batch, now);
    if error.Some? { return false, false, now; }
    if db.baseline.None? || db.baseline.value.status != Active {
      if sound { StillStartable(db.State(), version); }
      return true, false, now;
    }
    active := true;
    ok, at := ProcessBacklog(db, version, batch, clock);
    if sound {
      PhaseEnds(db.State(), version, clock.last);
    }
  }

  lemma Unshrunk(d: DirtyTable)
    ensures Shrinks(d, d)
  {
  }

  lemma StillStartable(s: Store, version: nat)
    requires s.baseline.Some? && s.baseline.value.version == version && s.baseline.value.status != Failed
    ensures StartOrResume(s.baseline, version).Ok?
  {
  }

  lemma PhaseEnds(s: Store, version: nat, now: Instant)
    requires Settled(s, version, now)
    ensures Invariant(Moment(s, now)) && ActiveAt(s, version) && StartOrResume(s.baseline, version).Ok?
    ensures forall k | !PendingFor(s.dirty, Consumer.Projection, k) :: UpToDate(s, k)
  {
    hide Invariant;
    SettledIsUpToDate(s, version, now);
  }
}
