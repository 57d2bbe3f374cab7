/** Safety of the current-statistics worker over every interleaving. */
module CurrentStatsProofs {
  import opened Orders
  import opened Calendar
  import opened Statistics
  import opened Dirty
  import opened Projection
  import opened ProjectionProofs
  import opened Snapshots
  import opened CurrentStats
  import opened Answers

  // ---------------------------------------------------------------- what the transactions touch

  lemma ProjectFrame(m: Moment, e: Event)
    requires Invariant(m) && (e.BaselineEvent? || e.DirtyEvent? || e.OverdueEvent? || e.Tick? || e.Register?)
    ensures var after := Step(m, e).store;
      && after.bookmarks == m.store.bookmarks
      && after.users == (if e.Register? then m.store.users + {e.user} else m.store.users)
      && (forall k :: PendingFor(after.dirty, Current, k) == PendingFor(m.store.dirty, Current, k))
      && (e.Tick? || e.Register? ==> after.dirty == m.store.dirty)
  {
    hide Chained, WeeklyStats, SoundRows, Refresh, Develop, PersistPage, Candidates;
    match e
    case BaselineEvent(version, batch) =>
    case DirtyEvent(version, k, g) =>
      AcknowledgeEffect(m.store.dirty, Consumer.Projection, k, g);
      if ProcessDirty(m.store, version, k, g, m.now).Applied? { ProcessDirtyEffect(m, version, k, g); }
    case OverdueEvent(version, k) =>
      if ProcessOverdue(m.store, version, k, m.now).Applied? { ProcessOverdueEffect(m, version, k); }
    case _ =>
  }

  lemma MutationFrame(m: Moment, e: Event, limit: nat)
    requires Invariant(m) && MutatedKey(m, e).Some?
    ensures e.CreateEvent? || e.PatchEvent? || e.DeleteEvent?
    ensures var k := MutatedKey(m, e).value; var after := Step(m, e).store;
      && after.users == m.store.users && after.dirty == Mark(m.store.dirty, k, MarkTime(m.store, e))
      && forall u | u != k.user :: AllTimeStats(after.bookmarks, u, limit) == AllTimeStats(m.store.bookmarks, u, limit)
  {
    hide Chained, Aggregate, SoundRows;
    var after := Step(m, e).store;
    MutationsMark(m.store, e, m.now);
    var k := MutatedKey(m, e).value;
    assert Mutates(m.store, after, e.id, k, MarkTime(m.store, e));
    forall u | u != k.user ensures UserRows(after.bookmarks, u) == UserRows(m.store.bookmarks, u) {
      OtherUsersUntouched(m.store.bookmarks, after.bookmarks, e.id, u);
    }
  }

  lemma OtherUsersUntouched(t: Table, t': Table, id: nat, user: nat)
    requires t - {id} == t' - {id} && (id in t ==> t[id].user != user) && (id in t' ==> t'[id].user != user)
    ensures UserRows(t', user) == UserRows(t, user)
  {
    forall i | i != id ensures (i in t <==> i in t') && (i in t ==> t[i] == t'[i]) {
      assert i in t <==> i in t - {id};
      assert i in t' <==> i in t' - {id};
      if i in t { assert (t - {id})[i] == (t' - {id})[i]; }
    }
  }

  /** A committed batch of current acknowledgements named the generation of every row it touched, and touched no
      other. */
  lemma {:induction false} AcknowledgedExactly(d: DirtyTable, acks: seq<(Key, nat)>)
    requires ValidTable(d) && AcknowledgeAll(d, acks).Some?
    ensures var d' := AcknowledgeAll(d, acks).value;
      && (forall x | x in acks :: x.0 in d && d[x.0].generation == x.1)
      && (forall k | (forall x | x in acks :: x.0 != k) :: (k in d' <==> k in d) && (k in d ==> d'[k] == d[k]))
  {
    if acks != [] {
      AcknowledgeEffect(d, Current, acks[0].0, acks[0].1);
      AcknowledgedExactly(Acknowledge(d, Current, acks[0].0, acks[0].1).0, acks[1..]);
      assert acks == [acks[0]] + acks[1..];
    }
  }

  lemma {:induction false} MarkersOfUser(markers: seq<(Key, nat)>, user: nat)
    ensures forall x :: x in MarkersOf(markers, user) <==> x in markers && x.0.user == user
  {
    if markers != [] {
      MarkersOfUser(markers[1..], user);
      assert markers == [markers[0]] + markers[1..];
    }
  }

  // ---------------------------------------------------------------- agreement of the cache

  ghost predicate Trusted(s: System, limit: nat) {
    && ValidCache(s.cache)
    && (forall u | s.waiting[u] == 0 && Get(s.cache, u).Some? :: Get(s.cache, u).value.stats == Live(s, limit, u))
  }

  /** A statistics read still guarded by its epoch is the live one, unless an invalidation is still to come. */
  ghost predicate Guarded(s: System, limit: nat) {
    s.worker.Working? && s.worker.todo != [] && !s.worker.refresh.Ready? ==>
      var u, r := s.worker.todo[0], s.worker.refresh;
      && r.epoch <= EpochOf(s.cache, u)
      && (r.HasStats? && EpochOf(s.cache, u) == r.epoch && s.waiting[u] == 0 ==> r.stats == Live(s, limit, u))
  }

  ghost predicate CacheAgrees(s: System, limit: nat) { Trusted(s, limit) && Guarded(s, limit) && Invariant(s.moment) }

  /** A publication keeps the cache trusted: it shows what its reader read, live unless an invalidation waits. */
  lemma PublishAgrees(s: System, limit: nat, user: nat, stats: Stats, at: Instant, expected: nat)
    requires Trusted(s, limit)
    requires EpochOf(s.cache, user) == expected && s.waiting[user] == 0 ==> stats == Live(s, limit, user)
    ensures Trusted(s.(cache := Published(s.cache, user, stats, at, expected).0), limit)
    ensures Trusted(s.(cache := Invalidated(Published(s.cache, user, stats, at, expected).0, user)), limit)
  {
    hide AllTimeStats, Published, Invalidated, Get, EpochOf;
    CacheEffect(s.cache, user, stats, at, expected);
    CacheEffect(Published(s.cache, user, stats, at, expected).0, user, stats, at, expected);
  }

  lemma FinaliseAgrees(s: System, limit: nat, commitFails: bool)
    requires CacheAgrees(s, limit) && s.worker.Working? && s.worker.todo != [] && s.worker.refresh.HasStats?
    ensures CacheAgrees(FinaliseUser(s, commitFails), limit)
  {
    hide Invariant, AllTimeStats, Published, Invalidated, Get, EpochOf, MarkersOf, AcknowledgeAll, ValidCache;
    var user, r := s.worker.todo[0], s.worker.refresh;
    PublishAgrees(s, limit, user, r.stats, r.at, r.epoch);
    AcknowledgeStep(s.moment, MarkersOf(s.worker.cycle.markers, user));
  }

  lemma MutationAgrees(s: System, limit: nat, e: Event)
    requires CacheAgrees(s, limit)
    ensures CacheAgrees(Mutation(s, e), limit)
  {
    hide Chained, AllTimeStats, SoundRows, Projected, SoundSources;
    if MutatedKey(s.moment, e).Some? {
      MutationFrame(s.moment, e, limit);
      StepKeeps(s.moment, e);
    }
  }

  predicate MovesMoment(a: Action) { a.Time? || a.Join? || a.Project? }

  lemma MomentAgrees(s: System, limit: nat, a: Action)
    requires CacheAgrees(s, limit) && MovesMoment(a)
    ensures CacheAgrees(Act(s, limit, a), limit)
  {
    hide Invariant, AllTimeStats, Step, Get;
    var e := if a.Time? then Tick(a.now) else if a.Join? then Register(a.user) else a.event;
    if e.BaselineEvent? || e.DirtyEvent? || e.OverdueEvent? || e.Tick? || e.Register? {
      StepKeeps(s.moment, e);
      ProjectFrame(s.moment, e);
    }
  }

  lemma WorkerAgrees(s: System, limit: nat, a: Action)
    requires CacheAgrees(s, limit) && !MovesMoment(a) && !a.Mutate? && !a.Finalise? && !a.Invalidate?
    ensures CacheAgrees(Act(s, limit, a), limit)
  {
    hide Invariant, AllTimeStats, Step, Get, Ordered, First, UsersAfter;
  }

  /** The cache agreement survives every action. */
  lemma ActAgrees(s: System, limit: nat, a: Action)
    requires CacheAgrees(s, limit)
    ensures CacheAgrees(Act(s, limit, a), limit)
  {
    hide Invariant, AllTimeStats, Step;
    if a.Mutate? {
      MutationAgrees(s, limit, a.event);
    } else if a.Finalise? {
      if s.worker.Working? && s.worker.todo != [] && s.worker.refresh.HasStats? {
        FinaliseAgrees(s, limit, a.commitFails);
      }
    } else if a.Invalidate? {
      CacheEffect(s.cache, a.user, Stats(0, 0, [], []), 0, 0);
    } else if MovesMoment(a) {
      MomentAgrees(s, limit, a);
    } else {
      WorkerAgrees(s, limit, a);
    }
  }

  // ---------------------------------------------------------------- no lost invalidation

  function OutstandingMarkers(w: Worker): set<(Key, nat)> {
    match w
    case Observed(_, _, markers) => set x | x in markers
    case Paging(_, cycle) => set x | x in cycle.markers
    case Working(cycle, todo, _, _) => set x | x in cycle.markers && x.0.user in todo
    case _ => {}
  }

  /** Rows cannot disappear under the markers the current consumer holds, and their generations only grow. */
  ghost predicate MarkersHeld(s: System) {
    forall x | x in OutstandingMarkers(s.worker) :: x.0 in s.moment.store.dirty
      && s.moment.store.dirty[x.0].generation >= x.1
  }

  /** What was mutated since the statistics were read is pending under a generation the markers do not name. */
  ghost predicate SinceRead(s: System) {
    s.worker.Working? && s.worker.todo != [] && s.worker.refresh.HasStats? ==>
      forall k | k in s.worker.refresh.since ::
        && k in s.unread && k.user == s.worker.todo[0] && k in s.moment.store.dirty
        && forall x | x in s.worker.cycle.markers && x.0 == k :: s.moment.store.dirty[k].generation > x.1
  }

  ghost predicate UnreadPends(s: System) { forall k | k in s.unread :: PendingFor(s.moment.store.dirty, Current, k) }

  ghost predicate NothingLost(s: System) {
    && Invariant(s.moment) && UnreadPends(s) && MarkersHeld(s) && SinceRead(s)
    && (s.worker.Working? ==> Distinct(s.worker.todo))
  }

  lemma InvariantTable(m: Moment)
    requires Invariant(m)
    ensures ValidTable(m.store.dirty)
  {
    hide Chained, SoundRows, Projected;
  }

  /** A mutation changes of the worker at most what its read is noted to miss. */
  lemma MutationWorker(s: System, e: Event)
    ensures OutstandingMarkers(Mutation(s, e).worker) == OutstandingMarkers(s.worker)
    ensures Mutation(s, e).worker.Working? <==> s.worker.Working?
    ensures s.worker.Working? ==> Mutation(s, e).worker == s.worker.(refresh := Mutation(s, e).worker.refresh)
  {
    hide Step, MutatedKey;
  }

  lemma MutationLosesNothing(s: System, limit: nat, e: Event)
    requires NothingLost(s)
    ensures NothingLost(Mutation(s, e))
  {
    hide Invariant, AllTimeStats, Step, MutatedKey, ValidTable;
    if MutatedKey(s.moment, e).Some? {
      MutationFrame(s.moment, e, limit);
      StepKeeps(s.moment, e);
      InvariantTable(s.moment);
      MutationWorker(s, e);
      MarkPends(s.moment.store.dirty, MutatedKey(s.moment, e).value, MarkTime(s.moment.store, e));
    }
  }

  lemma DoneKeepsMarkers(w: Worker, user: nat)
    requires w.Working? && w.todo != [] && Distinct(w.todo) && w.todo[0] == user
    ensures forall x | x in OutstandingMarkers(w.(todo := w.todo[1..])) ::
      x in OutstandingMarkers(w)
      && x.0.user != user
    ensures Distinct(w.todo[1..])
  {
    assert w.todo == [user] + w.todo[1..];
  }

  /** A change of worker that takes up no markers but current ones, and claims no reads it has not made. */
  lemma WorkerChange(s: System, t: System)
    requires NothingLost(s) && t.moment == s.moment && t.unread == s.unread
    requires forall x | x in OutstandingMarkers(t.worker) ::
      x in OutstandingMarkers(s.worker) || (x.0 in s.moment.store.dirty && s.moment.store.dirty[x.0].generation == x.1)
    requires t.worker.Working? ==>
      Distinct(t.worker.todo) && (t.worker == s.worker || !t.worker.refresh.HasStats? || t.worker.refresh.since == {})
    ensures NothingLost(t)
  {
    hide Invariant;
  }

  /** A refresh's committed acknowledgements: every row of another user, and every row mutated since the read, is
      untouched. */
  lemma CommitSpares(s: System)
    requires NothingLost(s) && s.worker.Working? && s.worker.todo != [] && s.worker.refresh.HasStats?
    requires AcknowledgeAll(s.moment.store.dirty, MarkersOf(s.worker.cycle.markers, s.worker.todo[0])).Some?
    ensures var user, r := s.worker.todo[0], s.worker.refresh;
      var after := Step(s.moment, CurrentEvent(MarkersOf(s.worker.cycle.markers, user)));
      && Invariant(after)
      && forall k: Key | k.user != user || k in r.since ::
           (k in after.store.dirty <==> k in s.moment.store.dirty)
           && (k in s.moment.store.dirty ==> after.store.dirty[k] == s.moment.store.dirty[k])
  {
    hide Chained, SoundRows, Projected, MarkersHeld, UnreadPends;
    var user, r := s.worker.todo[0], s.worker.refresh;
    var acks := MarkersOf(s.worker.cycle.markers, user);
    MarkersOfUser(s.worker.cycle.markers, user);
    AcknowledgeStep(s.moment, acks);
    AcknowledgedExactly(s.moment.store.dirty, acks);
  }

  lemma CommitLosesNothing(s: System)
    requires NothingLost(s) && s.worker.Working? && s.worker.todo != [] && s.worker.refresh.HasStats?
    requires AcknowledgeAll(s.moment.store.dirty, MarkersOf(s.worker.cycle.markers, s.worker.todo[0])).Some?
    ensures var user := s.worker.todo[0];
      NothingLost(UserDone(s.(moment := Step(s.moment, CurrentEvent(MarkersOf(s.worker.cycle.markers, user))),
                              unread := (set k | k in s.unread && k.user != user) + s.worker.refresh.since), false))
  {
    hide Invariant, Step, AcknowledgeAll, MarkersOf, OutstandingMarkers;
    CommitSpares(s);
    DoneKeepsMarkers(s.worker, s.worker.todo[0]);
    OutstandingAfter(s);
  }

  /** The markers still held after a user is done are other users', held before. */
  lemma OutstandingAfter(s: System)
    requires s.worker.Working? && s.worker.todo != [] && Distinct(s.worker.todo)
    ensures forall x | x in OutstandingMarkers(UserDone(s, false).worker) ::
      x in OutstandingMarkers(s.worker)
      && x.0.user != s.worker.todo[0]
  {
    DoneKeepsMarkers(s.worker, s.worker.todo[0]);
  }

  lemma FinaliseLosesNothing(s: System, commitFails: bool)
    requires NothingLost(s) && s.worker.Working? && s.worker.todo != [] && s.worker.refresh.HasStats?
    ensures NothingLost(FinaliseUser(s, commitFails))
  {
    hide NothingLost, Published, Step, AcknowledgeAll;
    var user := s.worker.todo[0];
    if AcknowledgeAll(s.moment.store.dirty, MarkersOf(s.worker.cycle.markers, user)).Some? { CommitLosesNothing(s); }
    assert Distinct(s.worker.todo) by { DistinctTodo(s); }
    DoneKeepsMarkers(s.worker, user);
    WorkerChange(s, UserDone(s, true));
    SameBooks(UserDone(s, true), FinaliseUser(s, commitFails));
    if AcknowledgeAll(s.moment.store.dirty, MarkersOf(s.worker.cycle.markers, user)).Some? {
      SameBooks(UserDone(s.(moment := Step(s.moment, CurrentEvent(MarkersOf(s.worker.cycle.markers, user))),
                            unread := (set k | k in s.unread && k.user != user) + s.worker.refresh.since), false),
                FinaliseUser(s, commitFails));
    }
  }

  lemma DistinctTodo(s: System)
    requires NothingLost(s) && s.worker.Working?
    ensures Distinct(s.worker.todo)
  {
  }

  /** Nothing else in the system bears on lost invalidations. */
  lemma SameBooks(s: System, t: System)
    ensures NothingLost(s) && t.moment == s.moment && t.unread == s.unread && t.worker == s.worker ==> NothingLost(t)
  {
    hide Invariant;
  }

  lemma MomentLosesNothing(s: System, limit: nat, a: Action)
    requires NothingLost(s) && MovesMoment(a)
    ensures NothingLost(Act(s, limit, a))
  {
    hide Invariant, Step;
    var e := if a.Time? then Tick(a.now) else if a.Join? then Register(a.user) else a.event;
    if e.BaselineEvent? || e.DirtyEvent? || e.OverdueEvent? || e.Tick? || e.Register? {
      StepKeeps(s.moment, e);
      ProjectFrame(s.moment, e);
    }
  }

  /** A worker that starts on its users holds no markers but those it read. */
  lemma StartedMarkers(before: Worker, after: Worker)
    requires before.Paging? && after.Working? && after.cycle.markers == before.cycle.markers
    ensures forall x | x in OutstandingMarkers(after) :: x in OutstandingMarkers(before)
  {
  }

  lemma OrderedDistinct(users: set<nat>)
    ensures Distinct(Ordered(users))
  {
  }

  lemma PageLosesNothing(s: System, limit: nat, batch: nat)
    requires NothingLost(s)
    ensures NothingLost(Act(s, limit, ReadPage(batch)))
  {
    hide NothingLost, AllTimeStats, Step, UsersAfter, First, Ordered, Distinct, OutstandingMarkers;
    var after := Act(s, limit, ReadPage(batch));
    if s.worker.Paging? && batch >= 1 {
      StartedMarkers(s.worker, after.worker);
      var marked := set x | x in s.worker.cycle.markers :: x.0.user;
      OrderedDistinct(s.worker.hints + marked + (set u | u in after.worker.cycle.page));
      WorkerChange(s, after);
    }
  }

  lemma ObserveLosesNothing(s: System, limit: nat, a: Action)
    requires NothingLost(s) && (a.Observe? || a.ReadPublisher?)
    ensures NothingLost(Act(s, limit, a))
  {
    hide NothingLost, AllTimeStats, Step, UsersAfter, First, Ordered;
    if s.worker.Working? { DistinctTodo(s); }
    WorkerChange(s, Act(s, limit, a));
  }

  lemma WorkingLosesNothing(s: System, limit: nat, a: Action)
    requires NothingLost(s) && (a.ReadEpoch? || a.ReadStats? || a.FailUser? || a.ReadBacklog?)
    ensures NothingLost(Act(s, limit, a))
  {
    hide NothingLost, AllTimeStats, Step, UsersAfter, First, Ordered;
    if s.worker.Working? {
      DistinctTodo(s);
      if s.worker.todo != [] { DoneKeepsMarkers(s.worker, s.worker.todo[0]); }
    }
    WorkerChange(s, Act(s, limit, a));
  }

  /** A worker that holds no markers and makes no claims loses nothing. */
  lemma EmptyHanded(s: System, t: System)
    requires NothingLost(s) && t.moment == s.moment && t.unread == s.unread
    requires t.worker.Idle? || t.worker.Started? || t.worker.Projecting?
    ensures NothingLost(t)
  {
    hide Invariant;
  }

  lemma OtherLosesNothing(s: System, limit: nat, a: Action)
    requires NothingLost(s) && (a.Invalidate? || a.RecordTrouble? || a.Begin? || a.Decide? || a.Abort? || a.End?)
    ensures NothingLost(Act(s, limit, a))
  {
    hide NothingLost, AllTimeStats, Step, UsersAfter, First, Ordered, Get, EpochOf, Published;
    var t := Act(s, limit, a);
    if t.worker == s.worker { SameBooks(s, t); } else { EmptyHanded(s, t); }
  }

  /** No action loses a committed mutation that no published read reflects. */
  lemma ActLosesNothing(s: System, limit: nat, a: Action)
    requires NothingLost(s)
    ensures NothingLost(Act(s, limit, a))
  {
    hide NothingLost, AllTimeStats, Step;
    if a.Mutate? {
      MutationLosesNothing(s, limit, a.event);
    } else if a.Finalise? {
      if s.worker.Working? && s.worker.todo != [] && s.worker.refresh.HasStats? {
        FinaliseLosesNothing(s, a.commitFails);
      }
    } else if MovesMoment(a) {
      MomentLosesNothing(s, limit, a);
    } else if a.ReadPage? {
      PageLosesNothing(s, limit, a.batch);
    } else if a.Observe? || a.ReadPublisher? {
      ObserveLosesNothing(s, limit, a);
    } else if a.ReadEpoch? || a.ReadStats? || a.FailUser? || a.ReadBacklog? {
      WorkingLosesNothing(s, limit, a);
    } else {
      OtherLosesNothing(s, limit, a);
    }
  }

  // ---------------------------------------------------------------- full reconciliation

  /** Where the sweep stands: everyone up to the cursor has been refreshed in it, and newcomers come after everyone. */
  ghost predicate SweepStands(s: System) {
    && (forall u | u in s.moment.store.users :: u >= 1)
    && (s.cursor == 0 || s.cursor in s.moment.store.users)
    && (forall u | u in s.moment.store.users && u <= s.cursor :: u in s.swept)
  }

  /** What a requested cycle knows of its page: the users that come next, in order, among those then present. */
  ghost predicate PageStands(s: System, c: Cycle) {
    && c.present <= s.moment.store.users
    && (forall u, p | u in s.moment.store.users && u !in c.present && p in c.present :: u > p)
    && (s.cursor == 0 || s.cursor in c.present)
    && (forall u | u in c.page :: u in c.present)
    && (c.page != [] ==> forall u | u in c.present && s.cursor < u <= c.page[|c.page| - 1] :: u in c.page)
    && (c.complete ==> forall u | u in c.present && u > s.cursor :: u in c.page)
  }

  ghost predicate CycleStands(s: System) {
    match s.worker
    case Paging(_, c) => s.epoch == c.epoch + s.troubles
    case Working(c, todo, failed, _) =>
      && s.epoch == c.epoch + s.troubles && PageStands(s, c)
      && (!failed ==> forall u | u in c.page :: u in todo || u in s.swept)
    case Deciding(c, failed, _) =>
      && s.epoch == c.epoch + s.troubles && PageStands(s, c)
      && (!failed ==> forall u | u in c.page :: u in s.swept)
    case _ => true
  }

  ghost predicate Sweeps(s: System) { SweepStands(s) && CycleStands(s) && Invariant(s.moment) }

  lemma PrefixOfUsers(list: seq<nat>, page: seq<nat>)
    requires forall i, j | 0 <= i < j < |list| :: list[i] < list[j]
    requires page <= list
    ensures forall u | u in page :: u in list
    ensures page != [] ==> forall u | u in list && u <= page[|page| - 1] :: u in page
  {
    forall u | u in list && page != [] && u <= page[|page| - 1] ensures u in page {
      var i :| 0 <= i < |list| && list[i] == u;
      assert i < |page|;
      assert page[i] == u;
    }
  }

  lemma FirstUsers(users: set<nat>, cursor: nat, batch: nat)
    requires batch >= 1
    ensures var page := First(UsersAfter(users, cursor), batch);
      && (forall u | u in page :: u in users && u > cursor)
      && (page != [] ==> forall u | u in users && cursor < u <= page[|page| - 1] :: u in page)
      && (|page| < batch ==> forall u | u in users && u > cursor :: u in page)
  {
    var list := UsersAfter(users, cursor);
    PrefixOfUsers(list, First(list, batch));
  }

  lemma PageSweeps(s: System, limit: nat, batch: nat)
    requires Sweeps(s)
    ensures Sweeps(Act(s, limit, ReadPage(batch)))
  {
    hide Invariant, First, UsersAfter, Ordered;
    if s.worker.Paging? && batch >= 1 {
      FirstUsers(s.moment.store.users, s.cursor, batch);
      var after := Act(s, limit, ReadPage(batch));
      var c := after.worker.cycle;
      assert PageStands(after, c);
      forall u | u in c.page ensures u in after.worker.todo {
        OrderedKeeps(s.worker.hints + (set x | x in s.worker.cycle.markers :: x.0.user) + (set v | v in c.page), u);
      }
    }
  }

  lemma OrderedKeeps(users: set<nat>, u: nat)
    ensures u in Ordered(users) <==> u in users
  {
  }

  lemma DoneSweeps(s: System, failed: bool, refreshed: set<nat>)
    requires Sweeps(s) && s.worker.Working? && s.worker.todo != [] && (!failed ==> s.worker.todo[0] in refreshed)
    ensures Sweeps(UserDone(s.(swept := s.swept + refreshed), failed))
  {
    hide Invariant;
    assert s.worker.todo == [s.worker.todo[0]] + s.worker.todo[1..];
  }

  /** The parts of the system the sweep rests on. */
  lemma SameSweep(s: System, t: System)
    requires Sweeps(s) && Invariant(t.moment) && t.moment.store.users == s.moment.store.users
    requires t.cursor == s.cursor && t.swept == s.swept && t.epoch == s.epoch && t.troubles == s.troubles
    requires t.worker == s.worker
      || (t.worker.Working? && s.worker.Working? && t.worker.(refresh := s.worker.refresh) == s.worker)
    ensures Sweeps(t)
  {
    hide Invariant;
  }

  lemma FinaliseSweeps(s: System, commitFails: bool)
    requires Sweeps(s) && s.worker.Working? && s.worker.todo != [] && s.worker.refresh.HasStats?
    ensures Sweeps(FinaliseUser(s, commitFails))
  {
    hide Sweeps, Chained, SoundRows, Projected, SoundSources, Published, AcknowledgeAll;
    var user := s.worker.todo[0];
    var acks := MarkersOf(s.worker.cycle.markers, user);
    DoneSweeps(s, true, {});
    DoneSweeps(s, false, {user});
    assert s.swept + {} == s.swept;
    assert Invariant(s.moment) by { SweepsInvariant(s); }
    AcknowledgeStep(s.moment, acks);
    var after := FinaliseUser(s, commitFails);
    assert Step(s.moment, CurrentEvent(acks)).store.users == s.moment.store.users;
    SameSweep(UserDone(s.(swept := after.swept), after.worker.failed && !s.worker.failed), after);
  }

  lemma SweepsInvariant(s: System)
    requires Sweeps(s)
    ensures Invariant(s.moment)
  {
  }

  /** New users come after everyone; nothing else about a moment bears on the sweep. */
  lemma UsersSweep(s: System, t: System, newcomers: set<nat>)
    requires Sweeps(s) && Invariant(t.moment) && t.(moment := s.moment) == s
    requires t.moment.store.users == s.moment.store.users + newcomers
    requires forall n, u | n in newcomers && u in s.moment.store.users :: n > u
    requires forall n | n in newcomers :: n >= 1
    ensures Sweeps(t)
  {
    hide Invariant;
    if s.worker.Working? { SamePagePlus(s, t, s.worker.cycle, newcomers); }
    if s.worker.Deciding? { SamePagePlus(s, t, s.worker.cycle, newcomers); }
  }

  lemma SamePagePlus(s: System, t: System, c: Cycle, newcomers: set<nat>)
    requires PageStands(s, c) && t.cursor == s.cursor && t.moment.store.users == s.moment.store.users + newcomers
    requires forall n, u | n in newcomers && u in s.moment.store.users :: n > u
    ensures PageStands(t, c)
  {
  }

  lemma MutationSweeps(s: System, limit: nat, e: Event)
    requires Sweeps(s)
    ensures Sweeps(Mutation(s, e))
  {
    hide Sweeps, Invariant, Step, MutatedKey;
    if MutatedKey(s.moment, e).Some? {
      SweepsInvariant(s);
      MutationFrame(s.moment, e, limit);
      StepKeeps(s.moment, e);
      SameSweep(s, Mutation(s, e));
    }
  }

  lemma MomentSweeps(s: System, limit: nat, a: Action)
    requires Sweeps(s) && (MovesMoment(a) || a.Mutate?)
    ensures Sweeps(Act(s, limit, a))
  {
    hide Sweeps, Invariant, Step, MutatedKey, AllTimeStats, Mutation;
    if a.Mutate? {
      MutationSweeps(s, limit, a.event);
    } else {
      var e := if a.Time? then Tick(a.now) else if a.Join? then Register(a.user) else a.event;
      var t := Act(s, limit, a);
      if t != s {
        SweepsInvariant(s);
        StepKeeps(s.moment, e);
        ProjectFrame(s.moment, e);
        UsersSweep(s, t, if a.Join? then {a.user} else {});
      }
    }
  }

  lemma DecideSweeps(s: System)
    requires Sweeps(s) && s.worker.Deciding?
    ensures Sweeps(DecideCycle(s))
  {
    hide Invariant;
    var c := s.worker.cycle;
    if c.page != [] {
      var last := c.page[|c.page| - 1];
      assert last in c.page && last in c.present;
      forall u | u in s.moment.store.users && u <= last && !s.worker.failed ensures u in c.present && u in s.swept {}
    }
  }

  lemma WorkerSweeps(s: System, limit: nat, a: Action)
    requires Sweeps(s)
    requires a.Begin? || a.Observe? || a.ReadPublisher? || a.ReadEpoch? || a.ReadStats? || a.ReadBacklog?
    ensures Sweeps(Act(s, limit, a))
  {
    hide Sweeps, Act;
    if a.ReadEpoch? || a.ReadStats? || a.ReadBacklog? { ReadSweeps(s, limit, a); } else { OpeningSweeps(s, limit, a); }
  }

  lemma OpeningSweeps(s: System, limit: nat, a: Action)
    requires Sweeps(s) && (a.Begin? || a.Observe? || a.ReadPublisher?)
    ensures Sweeps(Act(s, limit, a))
  {
    hide Invariant, Step, AllTimeStats, Ordered, First, UsersAfter, PageStands;
    SamePage(s, Act(s, limit, a));
  }

  lemma ReadSweeps(s: System, limit: nat, a: Action)
    requires Sweeps(s) && (a.ReadEpoch? || a.ReadStats? || a.ReadBacklog?)
    ensures Sweeps(Act(s, limit, a))
  {
    hide Invariant, Step, AllTimeStats, Ordered, First, UsersAfter, PageStands;
    SamePage(s, Act(s, limit, a));
  }

  lemma SamePage(s: System, t: System)
    requires t.moment == s.moment && t.cursor == s.cursor
    ensures s.worker.Working? || s.worker.Deciding? ==> PageStands(s, s.worker.cycle) == PageStands(t, s.worker.cycle)
  {
  }

  lemma TroubleSweeps(s: System, limit: nat, a: Action)
    requires Sweeps(s) && (a.RecordTrouble? || a.Abort? || a.End? || a.Invalidate?)
    ensures Sweeps(Act(s, limit, a))
  {
    hide Invariant, Step, AllTimeStats, Ordered, First, UsersAfter;
  }

  /** The sweep keeps its bearings under every action. */
  lemma ActSweeps(s: System, limit: nat, a: Action)
    requires Sweeps(s)
    ensures Sweeps(Act(s, limit, a))
  {
    hide Invariant, Step, AllTimeStats, Sweeps, FinaliseUser, DecideCycle, Mutation;
    if MovesMoment(a) || a.Mutate? {
      MomentSweeps(s, limit, a);
    } else if a.Finalise? {
      if s.worker.Working? && s.worker.todo != [] && s.worker.refresh.HasStats? { FinaliseSweeps(s, a.commitFails); }
    } else if a.FailUser? {
      if s.worker.Working? && s.worker.todo != [] {
        DoneSweeps(s, true, {});
        assert s.swept + {} == s.swept;
      }
    } else if a.ReadPage? {
      PageSweeps(s, limit, a.batch);
    } else if a.Decide? {
      if s.worker.Deciding? { DecideSweeps(s); }
    } else if a.RecordTrouble? || a.Abort? || a.End? || a.Invalidate? {
      TroubleSweeps(s, limit, a);
    } else {
      WorkerSweeps(s, limit, a);
    }
  }

  // ---------------------------------------------------------------- every reachable state

  /** A process starts with an empty cache over whatever database an earlier one left. */
  ghost predicate Boot(s: System) {
    && Invariant(s.moment) && UnreadPends(s) && (forall u | u in s.moment.store.users :: u >= 1)
    && s.cache == Cache(map[], map[]) && s.waiting == multiset{} && s.worker == Idle
    && s.cursor == 0 && s.swept == {}
  }

  ghost predicate Safe(s: System, limit: nat) { CacheAgrees(s, limit) && NothingLost(s) && Sweeps(s) }

  lemma Reachable(start: System, limit: nat, actions: seq<Action>)
    requires Boot(start)
    ensures Safe(Interleave(start, limit, actions), limit)
  {
    hide Invariant, CacheAgrees, NothingLost, Sweeps, Act;
    BootIsSafe(start, limit);
    StaysSafe(start, limit, actions);
  }

  lemma {:induction false} StaysSafe(start: System, limit: nat, actions: seq<Action>)
    requires Safe(start, limit)
    ensures Safe(Interleave(start, limit, actions), limit)
  {
    hide Invariant, CacheAgrees, NothingLost, Sweeps, Act;
    if actions != [] {
      var before, a := Interleave(start, limit, actions[..|actions| - 1]), actions[|actions| - 1];
      StaysSafe(start, limit, actions[..|actions| - 1]);
      ActAgrees(before, limit, a);
      ActLosesNothing(before, limit, a);
      ActSweeps(before, limit, a);
    }
  }

  lemma BootIsSafe(start: System, limit: nat)
    requires Boot(start)
    ensures Safe(start, limit)
  {
    hide Invariant;
  }

  /** Once no committed mutation of the user awaits its invalidation, the statistics service answers what live SQL
      would: after any overflow, stale acknowledgement, lost publication or failed commit. */
  lemma ReadRefinesLive(
      start: System, limit: nat, actions: seq<Action>, user: nat, enabled: bool, healthy: bool, now: Instant,
        staleAfter: nat)
    requires Boot(start)
    ensures var s := Interleave(start, limit, actions);
      s.waiting[user] == 0 ==>
        var answer := Read(s, limit, user, enabled, healthy, now, staleAfter).0;
        var t := s.moment.store.bookmarks;
        var rows := map id | id in t && t[id].user == user :: t[id];
        answer == Live(s, limit, user) && Describes(answer, rows, limit) && AnswersSql(answer, t, rows, limit)
  {
    hide Invariant, NothingLost, Sweeps, Act, AllTimeStats, Describes, AnswersSql;
    Reachable(start, limit, actions);
    AllTimeDescribes(Interleave(start, limit, actions).moment.store.bookmarks, user, limit);
  }

  /** The service answers from a snapshot exactly when refreshing is enabled and healthy and it holds a record of the
      user's present epoch that is neither from the future nor older than allowed; otherwise it asks SQL. */
  lemma ReadSource(s: System, limit: nat, user: nat, enabled: bool, healthy: bool, now: Instant, staleAfter: nat)
    ensures var (stats, source) := Read(s, limit, user, enabled, healthy, now, staleAfter);
      var epoch := if user in s.cache.epochs then s.cache.epochs[user] else 0;
      && (source == Snapshot <==> (
            && enabled && healthy && user in s.cache.records && s.cache.records[user].epoch == epoch
            && s.cache.records[user].generatedAt <= now <= s.cache.records[user].generatedAt + staleAfter))
      && stats == if source == Snapshot then s.cache.records[user].stats
                  else AllTimeStats(s.moment.store.bookmarks, user, limit)
  {
    hide AllTimeStats;
  }

  /** A committed mutation that no published read reflects keeps its row, with the current completion behind its
      generation. */
  lemma NoLostInvalidation(start: System, limit: nat, actions: seq<Action>, k: Key)
    requires Boot(start)
    ensures var s := Interleave(start, limit, actions);
      k in s.unread ==>
        k in s.moment.store.dirty
        && s.moment.store.dirty[k].current < s.moment.store.dirty[k].generation
  {
    hide Chained, CacheAgrees, Sweeps, Act, SoundRows, Projected;
    Reachable(start, limit, actions);
    var d := Interleave(start, limit, actions).moment.store.dirty;
    if k in d { assert ValidRow(d[k]); }
  }

  /** Demand for reconciliation is only ever dropped by a cycle that read an empty backlog and a last page, when every
      user present at that read has been refreshed in the sweep and no trouble was recorded since the cycle read the
      epoch. */
  lemma FullReconciliation(start: System, limit: nat, actions: seq<Action>, a: Action)
    requires Boot(start)
    ensures var s := Interleave(start, limit, actions);
      s.required && !Act(s, limit, a).required ==>
        && a == Decide && s.worker.Deciding? && s.worker.backlogEmpty && !s.worker.failed && s.worker.cycle.complete
        && s.troubles == 0
        && forall u | u in s.worker.cycle.present :: u in s.swept
  {
    hide Invariant, CacheAgrees, NothingLost;
    Reachable(start, limit, actions);
    var s := Interleave(start, limit, actions);
    if s.required && !Act(s, limit, a).required { Dropped(s, limit, a); }
  }

  lemma Dropped(s: System, limit: nat, a: Action)
    requires s.required && !Act(s, limit, a).required
    ensures a == Decide && s.worker.Deciding? && s.worker.backlogEmpty && !s.worker.failed && s.worker.cycle.complete
    ensures s.epoch == s.worker.cycle.epoch
  {
    hide Step, AllTimeStats, Ordered, First, UsersAfter, MutatedKey, Published, AcknowledgeAll;
  }
}
