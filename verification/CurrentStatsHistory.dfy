/**
 What the interleaved runs of the current worker come to, told by the actions taken and not by the audit trail: which
 reads were published, what an acknowledged reconciliation rests on, and what a cycle achieves when nothing disturbs it.
 */
module CurrentStatsHistory {
  import opened Orders
  import opened Calendar
  import opened Statistics
  import opened Dirty
  import opened Projection
  import opened ProjectionProofs
  import opened Snapshots
  import opened CurrentStats
  import opened CurrentStatsProofs
  import opened ProjectionPhase
  import opened Refresher

  /** The state before the i-th action of a run. */
  function At(start: System, limit: nat, actions: seq<Action>, i: nat): System
    requires i <= |actions|
  {
    Interleave(start, limit, actions[..i])
  }

  lemma AtNext(start: System, limit: nat, actions: seq<Action>, a: Action)
    ensures Interleave(start, limit, actions + [a]) == Act(Interleave(start, limit, actions), limit, a)
    ensures At(start, limit, actions + [a], |actions|) == Interleave(start, limit, actions)
    ensures forall i | 0 <= i <= |actions| :: At(start, limit, actions + [a], i) == At(start, limit, actions, i)
  {
    hide Act;
    assert (actions + [a])[..|actions|] == actions;
    forall i | 0 <= i <= |actions|
      ensures At(start, limit, actions + [a], i) == At(start, limit, actions, i)
    {
      assert (actions + [a])[..i] == actions[..i];
    }
  }

  /** A process can start over any database of a reached moment. */
  lemma AnyMomentBoots(m: Moment)
    requires Invariant(m) && forall u | u in m.store.users :: u >= 1
    ensures Boot(System(m, Cache(map[], map[]), false, 0, 0, Idle, multiset{}, {}, {}, 0))
  {
    hide Invariant;
  }

  // ---------------------------------------------------------------- every committed mutation is read and published

  /** A committed mutation is seen by every later read at once and leaves its owner's invalidation to be made; the
      invalidation then hides the owner's snapshot. */
  lemma MutationCommits(s: System, limit: nat, e: Event, user: nat)
    requires e.CreateEvent? || e.PatchEvent? || e.DeleteEvent?
    ensures var t := Act(s, limit, Mutate(e));
      && t.moment == Step(s.moment, e) && t.cache == s.cache
      && (t.moment.store.bookmarks != s.moment.store.bookmarks ==>
            var owner := if e.CreateEvent? then e.row.user else s.moment.store.bookmarks[e.id].user;
            t.waiting == s.waiting + multiset{owner})
    ensures user in s.waiting ==>
      var t := Act(s, limit, Invalidate(user));
      t == s.(cache := t.cache, waiting := s.waiting - multiset{user})
      && (ValidCache(s.cache) ==> Get(t.cache, user) == None)
  {
    hide Create, PatchBookmark, Delete;
    MutationsMark(s.moment.store, e, s.moment.now);
    CacheFrame(s.cache, user);
  }

  /** What goes on around the worker's cycle: time passes forward, users join in order of their ids, the projection
      phase takes its steps, and a recorded trouble or a cycle broken off raises the demand for reconciliation. */
  lemma SurroundingActions(s: System, limit: nat, a: Action)
    ensures var t := Act(s, limit, a);
      match a
      case Time(now) => t == s.(moment := s.moment.(now := if now > s.moment.now then now else s.moment.now))
      case Join(user) => user >= 1 && (forall u | u in s.moment.store.users :: u < user) ==>
        t == s.(moment := s.moment.(store := s.moment.store.(users := s.moment.store.users + {user})))
      case Project(e) => s.worker.Projecting? && (e.BaselineEvent? || e.DirtyEvent? || e.OverdueEvent?) ==>
        t == s.(moment := Step(s.moment, e))
      case RecordTrouble => t == s.(required := true, epoch := s.epoch + 1, troubles := t.troubles)
      case Abort => !s.worker.Idle? && !s.worker.Projecting? ==>
        t == s.(required := true, epoch := s.epoch + 1, troubles := t.troubles, worker := Projecting)
      case FailUser => s.worker.Working? && s.worker.todo != [] ==>
        t == s.(worker := s.worker.(todo := s.worker.todo[1..], failed := true, refresh := Ready))
      case _ => true
  {
    hide AllTimeStats, ProcessDirty, ProcessOverdue, BaselineStep;
  }

  lemma CacheFrame(c: Cache, user: nat)
    ensures ValidCache(c) ==> Get(Invalidated(c, user), user) == None
  {
    if ValidCache(c) { CacheEffect(c, user, Stats(0, 0, [], []), 0, 0); }
  }

  /** The worker takes its read of the user's statistics. */
  predicate Reads(s: System, a: Action, user: nat) {
    a.ReadStats? && s.worker.Working? && s.worker.todo != [] && s.worker.todo[0] == user && s.worker.refresh.HasEpoch?
  }

  /** The worker commits a refresh of the user, after which the snapshot store shows these statistics. */
  predicate Publishes(s: System, limit: nat, a: Action, user: nat, stats: Stats) {
    && a.Finalise? && s.worker.Working? && s.worker.todo != [] && s.worker.todo[0] == user
    && s.worker.refresh.HasStats? && Shows(Act(s, limit, a).cache, user, stats)
  }

  ghost predicate ReadAt(start: System, limit: nat, actions: seq<Action>, i: nat, user: nat, stats: Stats) {
    i < |actions| && Reads(At(start, limit, actions, i), actions[i], user)
    && stats == Live(At(start, limit, actions, i), limit, user)
  }

  /** Some action read the user's live statistics, and a later one published them. */
  ghost predicate ReadThenPublished(start: System, limit: nat, actions: seq<Action>, user: nat) {
    exists i: nat, j: nat, stats ::
      i < j < |actions| && ReadAt(start, limit, actions, i, user, stats)
      && Publishes(At(start, limit, actions, j), limit, actions[j], user, stats)
  }

  /** A read that is under way and misses nothing of key k was taken by one of the actions. */
  ghost predicate ReadHere(start: System, limit: nat, actions: seq<Action>, s: System, k: Key) {
    s.worker.Working? && s.worker.todo != [] && s.worker.todo[0] == k.user && s.worker.refresh.HasStats?
    && k !in s.worker.refresh.since
    ==> exists i: nat :: ReadAt(start, limit, actions, i, k.user, s.worker.refresh.stats)
  }

  lemma ReadsStay(start: System, limit: nat, actions: seq<Action>, a: Action, user: nat)
    ensures forall i: nat, stats | ReadAt(start, limit, actions, i, user, stats) ::
      ReadAt(start, limit, actions + [a], i, user, stats)
    ensures ReadThenPublished(start, limit, actions, user) ==> ReadThenPublished(start, limit, actions + [a], user)
  {
    hide Reads, Publishes, Live, At;
    AtNext(start, limit, actions, a);
    if ReadThenPublished(start, limit, actions, user) {
      var i: nat, j: nat, stats :| i < j < |actions| && ReadAt(start, limit, actions, i, user, stats)
        && Publishes(At(start, limit, actions, j), limit, actions[j], user, stats);
      assert Publishes(At(start, limit, actions + [a], j), limit, (actions + [a])[j], user, stats);
      assert ReadAt(start, limit, actions + [a], i, user, stats);
    }
  }

  /** What one action may do to the marks of an unread mutation. */
  lemma UnreadStep(s: System, limit: nat, a: Action, k: Key)
    ensures var t := Act(s, limit, a);
      k in s.unread && k !in t.unread ==>
        && a.Finalise? && s.worker.Working? && s.worker.todo != [] && s.worker.todo[0] == k.user
        && s.worker.refresh.HasStats? && k !in s.worker.refresh.since
        && Publishes(s, limit, a, k.user, s.worker.refresh.stats)
  {
    hide Step, AllTimeStats, AcknowledgeAll, MarkersOf, MutatedKey, Ordered, First, UsersAfter;
  }

  /** A read under way was just taken, or was under way before and has not come to miss less. */
  lemma RefreshStep(s: System, limit: nat, a: Action, user: nat)
    ensures var t := Act(s, limit, a);
      t.worker.Working? && t.worker.todo != [] && t.worker.todo[0] == user && t.worker.refresh.HasStats? ==>
        || (Reads(s, a, user) && t.worker.refresh.stats == Live(s, limit, user))
        || (s.worker.Working? && s.worker.todo == t.worker.todo && s.worker.refresh.HasStats?
            && s.worker.refresh.stats == t.worker.refresh.stats && s.worker.refresh.since <= t.worker.refresh.since)
  {
    hide Step, AllTimeStats, AcknowledgeAll, MarkersOf, MutatedKey, Ordered, First, UsersAfter, Published;
  }

  lemma {:induction false} UnreadUntilPublished(start: System, limit: nat, actions: seq<Action>, k: Key)
    requires k in start.unread && ReadHere(start, limit, [], start, k)
    ensures var s := Interleave(start, limit, actions);
      (k in s.unread || ReadThenPublished(start, limit, actions, k.user)) && ReadHere(start, limit, actions, s, k)
  {
    hide Act, Reads, Publishes, Live, At, ReadThenPublished, ReadAt;
    if actions != [] {
      var before, a := actions[..|actions| - 1], actions[|actions| - 1];
      assert actions == before + [a];
      UnreadUntilPublished(start, limit, before, k);
      var s := Interleave(start, limit, before);
      AtNext(start, limit, before, a);
      ReadsStay(start, limit, before, a, k.user);
      UnreadStep(s, limit, a, k);
      RefreshStep(s, limit, a, k.user);
      ReadJoins(start, limit, before, a, k);
    }
  }

  lemma ReadJoins(start: System, limit: nat, before: seq<Action>, a: Action, k: Key)
    ensures var s := Interleave(start, limit, before);
      Reads(s, a, k.user) ==> ReadAt(start, limit, before + [a], |before|, k.user, Live(s, limit, k.user))
    ensures forall stats, i: nat | ReadAt(start, limit, before, i, k.user, stats)
      && Publishes(Interleave(start, limit, before), limit, a, k.user, stats) ::
      ReadThenPublished(start, limit, before + [a], k.user)
  {
    hide Act, Reads, Publishes, Live;
    AtNext(start, limit, before, a);
    forall stats, i: nat | ReadAt(start, limit, before, i, k.user, stats)
      && Publishes(Interleave(start, limit, before), limit, a, k.user, stats)
      ensures ReadThenPublished(start, limit, before + [a], k.user)
    {
      assert ReadAt(start, limit, before + [a], i, k.user, stats);
      assert Publishes(At(start, limit, before + [a], |before|), limit, (before + [a])[|before|], k.user, stats);
    }
  }

  /** Under every interleaving, the row of a committed mutation keeps its current completion behind its generation
      until a read of the owner's live statistics, taken after the mutation, has been published. */
  lemma MutationIsReflected(
      start: System, limit: nat, before: seq<Action>, e: Event, later: seq<Action>, k: Key)
    requires Boot(start) && (e.CreateEvent? || e.PatchEvent? || e.DeleteEvent?)
    requires var t := Interleave(start, limit, before).moment.store;
      && Step(Interleave(start, limit, before).moment, e).store.bookmarks != t.bookmarks
      && (e.CreateEvent? || e.id in t.bookmarks)
      && var b := if e.CreateEvent? then e.row else t.bookmarks[e.id];
         k.user == b.user && WeekStart(k.week) <= b.createdAt < WeekEnd(k.week)
    ensures var mutated := Interleave(start, limit, before + [Mutate(e)]);
      var d := Interleave(mutated, limit, later).moment.store.dirty;
      (k in d && d[k].current < d[k].generation) || ReadThenPublished(mutated, limit, later, k.user)
  {
    hide Step, Interleave, ReadThenPublished, Safe, Act;
    var s := Interleave(start, limit, before);
    var mutated := Interleave(start, limit, before + [Mutate(e)]);
    AtNext(start, limit, before, Mutate(e));
    var b := if e.CreateEvent? then e.row else s.moment.store.bookmarks[e.id];
    WindowsPartition(b.createdAt, k.week);
    MutationUnread(s, limit, e, k);
    Reachable(start, limit, before + [Mutate(e)]);
    UnreadUntilPublished(mutated, limit, later, k);
    StaysSafe(mutated, limit, later);
    UnreadIsPending(Interleave(mutated, limit, later), limit, k);
  }

  lemma MutationUnread(s: System, limit: nat, e: Event, k: Key)
    requires Step(s.moment, e).store.bookmarks != s.moment.store.bookmarks
    requires e.CreateEvent? || e.PatchEvent? || e.DeleteEvent?
    requires e.CreateEvent? || e.id in s.moment.store.bookmarks
    requires k == KeyOf(if e.CreateEvent? then e.row else s.moment.store.bookmarks[e.id])
    ensures var t := Act(s, limit, Mutate(e)); k in t.unread && ReadHere(t, limit, [], t, k)
  {
    hide Step;
  }

  lemma UnreadIsPending(s: System, limit: nat, k: Key)
    requires Safe(s, limit)
    ensures var d := s.moment.store.dirty; k in s.unread ==> k in d && d[k].current < d[k].generation
  {
    hide Chained, CacheAgrees, Sweeps, SoundRows, Projected;
    if k in s.moment.store.dirty { assert ValidRow(s.moment.store.dirty[k]); }
  }

  // ---------------------------------------------------------------- what ends the demand for reconciliation

  /** The read of a page that opens a new sweep. */
  predicate SweepOpens(s: System, a: Action) {
    a.ReadPage? && a.batch > 0 && s.worker.Paging? && s.worker.cycle.requested && s.cursor == 0
  }

  ghost predicate RefreshedAt(start: System, limit: nat, actions: seq<Action>, j: nat, user: nat) {
    && j < |actions| && (exists stats :: Publishes(At(start, limit, actions, j), limit, actions[j], user, stats))
    && forall q | j < q < |actions| :: !SweepOpens(At(start, limit, actions, q), actions[q])
  }

  ghost predicate Refreshed(start: System, limit: nat, actions: seq<Action>, user: nat) {
    exists j: nat :: RefreshedAt(start, limit, actions, j, user)
  }

  lemma SweptStep(s: System, limit: nat, a: Action, user: nat)
    ensures var t := Act(s, limit, a);
      user in t.swept ==>
        (exists stats :: Publishes(s, limit, a, user, stats)) || (user in s.swept && !SweepOpens(s, a))
  {
    hide Step, AllTimeStats, AcknowledgeAll, MarkersOf, MutatedKey, Ordered, First, UsersAfter;
    if a.Finalise? && s.worker.Working? && s.worker.todo != [] && s.worker.refresh.HasStats?
      && user in Act(s, limit, a).swept && user !in s.swept {
      assert Publishes(s, limit, a, user, s.worker.refresh.stats);
    }
  }

  lemma RefreshedStays(start: System, limit: nat, before: seq<Action>, a: Action, user: nat)
    requires Refreshed(start, limit, before, user) && !SweepOpens(Interleave(start, limit, before), a)
    ensures Refreshed(start, limit, before + [a], user)
  {
    hide Publishes, At, SweepOpens, Interleave, Act;
    AtNext(start, limit, before, a);
    var j: nat :| RefreshedAt(start, limit, before, j, user);
    var actions := before + [a];
    forall q | j < q < |actions| ensures !SweepOpens(At(start, limit, actions, q), actions[q]) {
      if q < |before| { assert At(start, limit, actions, q) == At(start, limit, before, q) && actions[q] == before[q]; }
    }
    assert At(start, limit, actions, j) == At(start, limit, before, j) && actions[j] == before[j];
    assert RefreshedAt(start, limit, actions, j, user);
  }

  /** Whoever counts as swept was published, with no new sweep opened since. */
  lemma {:induction false} SweptIsRefreshed(start: System, limit: nat, actions: seq<Action>, user: nat)
    requires start.swept == {}
    ensures user in Interleave(start, limit, actions).swept ==> Refreshed(start, limit, actions, user)
  {
    hide Act, Publishes, SweepOpens, Refreshed;
    if actions != [] {
      var before, a := actions[..|actions| - 1], actions[|actions| - 1];
      assert actions == before + [a];
      SweptIsRefreshed(start, limit, before, user);
      var s := Interleave(start, limit, before);
      AtNext(start, limit, before, a);
      SweptStep(s, limit, a, user);
      if user in Act(s, limit, a).swept {
        if exists stats :: Publishes(s, limit, a, user, stats) {
          assert RefreshedAt(start, limit, actions, |before|, user) by { hide At; }
          assert Refreshed(start, limit, actions, user) by { RefreshedNow(start, limit, actions, |before|, user); }
        } else {
          RefreshedStays(start, limit, before, a, user);
        }
      }
    }
  }

  lemma RefreshedNow(start: System, limit: nat, actions: seq<Action>, j: nat, user: nat)
    requires RefreshedAt(start, limit, actions, j, user)
    ensures Refreshed(start, limit, actions, user)
  {
  }

  /** The action read the publisher's epoch, the users, or the backlog. */
  ghost predicate ReadsEpoch(start: System, limit: nat, actions: seq<Action>, p: nat, epoch: nat) {
    p < |actions| && actions[p] == ReadPublisher && At(start, limit, actions, p).epoch == epoch
  }

  ghost predicate ReadsUsers(start: System, limit: nat, actions: seq<Action>, p: nat, users: set<nat>) {
    p < |actions| && actions[p].ReadPage? && At(start, limit, actions, p).moment.store.users == users
  }

  ghost predicate ReadsEmpty(start: System, limit: nat, actions: seq<Action>, p: nat) {
    p < |actions| && actions[p] == ReadBacklog && At(start, limit, actions, p).moment.store.dirty == map[]
  }

  /** What the worker holds was read by these actions, in this order. */
  ghost predicate CycleRead(start: System, limit: nat, actions: seq<Action>, w: Worker, p: nat, r: nat, b: nat) {
    match w
    case Paging(_, c) => ReadsEpoch(start, limit, actions, p, c.epoch)
    case Working(c, _, _, _) =>
      p < r && ReadsEpoch(start, limit, actions, p, c.epoch) && ReadsUsers(start, limit, actions, r, c.present)
    case Deciding(c, _, empty) =>
      && p < r < b && ReadsEpoch(start, limit, actions, p, c.epoch) && ReadsUsers(start, limit, actions, r, c.present)
      && (empty ==> ReadsEmpty(start, limit, actions, b))
    case _ => true
  }

  lemma ReadingsStay(start: System, limit: nat, before: seq<Action>, a: Action, w: Worker, p: nat, r: nat, b: nat)
    requires CycleRead(start, limit, before, w, p, r, b)
    ensures CycleRead(start, limit, before + [a], w, p, r, b)
  {
    hide At;
    AtNext(start, limit, before, a);
  }

  /** The worker's own steps: what it holds after an action it held before, or has just read. */
  lemma WorkerStep(s: System, limit: nat, a: Action)
    ensures var w := Act(s, limit, a).worker;
      && (w.Paging? ==>
        (s.worker.Paging? && w.cycle == s.worker.cycle) || (a == ReadPublisher && w.cycle.epoch == s.epoch))
      && (w.Working? ==>
        || (s.worker.Working? && w.cycle == s.worker.cycle)
        || (a.ReadPage? && s.worker.Paging? && w.cycle.epoch == s.worker.cycle.epoch
            && w.cycle.present == s.moment.store.users))
      && (w.Deciding? ==>
        || w == s.worker
        || (a == ReadBacklog && s.worker.Working? && w.cycle == s.worker.cycle
            && (w.backlogEmpty ==> s.moment.store.dirty == map[])))
  {
    hide Step, AllTimeStats, AcknowledgeAll, MarkersOf, MutatedKey, Ordered, First, UsersAfter, Published;
  }

  lemma {:induction false} CycleIsRead(start: System, limit: nat, actions: seq<Action>) returns (p: nat, r: nat, b: nat)
    requires start.worker == Idle
    ensures CycleRead(start, limit, actions, Interleave(start, limit, actions).worker, p, r, b)
  {
    hide Act, At;
    p, r, b := 0, 0, 0;
    if actions != [] {
      var before, a := actions[..|actions| - 1], actions[|actions| - 1];
      assert actions == before + [a];
      var s := Interleave(start, limit, before);
      p, r, b := CycleIsRead(start, limit, before);
      ReadingsStay(start, limit, before, a, s.worker, p, r, b);
      AtNext(start, limit, before, a);
      WorkerStep(s, limit, a);
      var w := Act(s, limit, a).worker;
      if w.Paging? && !s.worker.Paging? {
        p := |before|;
      } else if w.Paging? && w.cycle != s.worker.cycle {
        p := |before|;
      } else if w.Working? && (!s.worker.Working? || w.cycle != s.worker.cycle) {
        r := |before|;
      } else if w.Deciding? && w != s.worker {
        b := |before|;
      }
    }
  }

  lemma EpochStep(s: System, limit: nat, a: Action)
    ensures Act(s, limit, a).epoch >= s.epoch + if a == RecordTrouble then 1 else 0
  {
    hide Step, AllTimeStats, AcknowledgeAll, MarkersOf, MutatedKey, Ordered, First, UsersAfter, Published;
  }

  /** The publisher's epoch counts every trouble recorded. */
  lemma {:induction false} EpochGrows(start: System, limit: nat, actions: seq<Action>, p: nat)
    requires p <= |actions|
    ensures At(start, limit, actions, p).epoch <= Interleave(start, limit, actions).epoch
    ensures At(start, limit, actions, p).epoch == Interleave(start, limit, actions).epoch ==>
      forall q | p <= q < |actions| :: actions[q] != RecordTrouble
  {
    hide Act;
    if p == |actions| {
      assert actions[..p] == actions;
    } else {
      var before, a := actions[..|actions| - 1], actions[|actions| - 1];
      assert actions == before + [a];
      EpochGrows(start, limit, before, p);
      AtNext(start, limit, before, a);
      EpochStep(Interleave(start, limit, before), limit, a);
    }
  }

  /** The demand for reconciliation is dropped only by a cycle that first read the publisher's epoch, then the users,
      and then an empty backlog, with no trouble recorded since the first; and by then every user present at the second
      had a refresh published since the sweep was opened. */
  lemma ReconciliationIsEarned(start: System, limit: nat, actions: seq<Action>, a: Action)
    returns (p: nat, r: nat, b: nat)
    requires Boot(start)
    requires var s := Interleave(start, limit, actions); s.required && !Act(s, limit, a).required
    ensures p < r < b < |actions| && actions[p] == ReadPublisher && actions[r].ReadPage? && actions[b] == ReadBacklog
    ensures forall q | p <= q < |actions| :: actions[q] != RecordTrouble
    ensures At(start, limit, actions, b).moment.store.dirty == map[]
    ensures forall u | u in At(start, limit, actions, r).moment.store.users :: Refreshed(start, limit, actions, u)
  {
    hide Act, At, Interleave, Refreshed, Boot;
    BootFacts(start);
    var s := Interleave(start, limit, actions);
    FullReconciliation(start, limit, actions, a);
    Dropped(s, limit, a);
    p, r, b := CycleIsRead(start, limit, actions);
    EpochGrows(start, limit, actions, p);
    forall u | u in At(start, limit, actions, r).moment.store.users ensures Refreshed(start, limit, actions, u) {
      SweptIsRefreshed(start, limit, actions, u);
    }
  }

  lemma BootFacts(start: System)
    requires Boot(start)
    ensures start.worker == Idle && start.swept == {}
  {
  }

  // ---------------------------------------------------------------- an undisturbed cycle

  lemma {:induction false} Joined(s: System, limit: nat, a: seq<Action>, b: seq<Action>)
    ensures Interleave(s, limit, a + b) == Interleave(Interleave(s, limit, a), limit, b)
  {
    hide Act;
    if b == [] {
      assert a + b == a;
    } else {
      Joined(s, limit, a, b[..|b| - 1]);
      assert (a + b)[..|a + b| - 1] == a + b[..|b| - 1];
    }
  }

  /** The refreshes of n users, one after the other. */
  function Refreshes(n: nat): seq<Action> {
    if n == 0 then [] else [ReadEpoch, ReadStats, Finalise(false)] + Refreshes(n - 1)
  }

  /** A worker about to refresh its users, with every invalidation made and its markers naming what is in the table. */
  ghost predicate Poised(s: System) {
    && s.worker.Working? && s.worker.refresh == Ready && Distinct(s.worker.todo) && s.waiting == multiset{}
    && DistinctKeys(s.worker.cycle.markers) && Fresh(s.moment.store.dirty, s.worker.cycle.markers, s.worker.todo)
  }

  lemma OneRefresh(s: System, limit: nat)
    requires Poised(s) && s.worker.todo != []
    ensures var user := s.worker.todo[0]; var t := Interleave(s, limit, Refreshes(1));
      var dirty := AcknowledgeAll(s.moment.store.dirty, MarkersOf(s.worker.cycle.markers, user));
      var live := Live(s, limit, user);
      && dirty.Some?
      && t == s.(moment := s.moment.(store := s.moment.store.(dirty := dirty.value)), cache := t.cache,
                 worker := s.worker.(todo := s.worker.todo[1..]), unread := t.unread, swept := t.swept)
      && Shows(t.cache, user, live) && (forall u | u != user :: Get(t.cache, u) == Get(s.cache, u))
      && Poised(t)
  {
    hide AllTimeStats, AcknowledgeAll, MarkersOf, Fresh, DistinctKeys, Get, Published, Distinct, EpochOf, Interleave,
      Ordered, First, UsersAfter, MutatedKey, Mutation, Invalidated, Step;
    var user := s.worker.todo[0];
    var epoch := EpochOf(s.cache, user);
    HeadTail(s);
    RefreshKeepsFresh(s.moment.store.dirty, s.worker.cycle.markers, s.worker.todo[1..], user);
    var read := Act(s, limit, ReadEpoch);
    var known := Act(read, limit, ReadStats);
    assert Interleave(s, limit, Refreshes(1)) == Act(known, limit, Finalise(false)) by { ThreeActs(s, limit); }
    FinaliseIsFinished(known, false);
    PublishShows(s.cache, user, Live(s, limit, user), s.moment.now, epoch);
  }

  lemma PublishShows(c: Cache, user: nat, stats: Stats, at: Instant, epoch: nat)
    requires epoch == EpochOf(c, user)
    ensures Published(c, user, stats, at, epoch).1 && Shows(Published(c, user, stats, at, epoch).0, user, stats)
    ensures forall u | u != user :: Get(Published(c, user, stats, at, epoch).0, u) == Get(c, u)
  {
  }

  lemma HeadTail(s: System)
    requires s.worker.Working? && s.worker.todo != [] && Distinct(s.worker.todo)
    ensures s.worker.todo == [s.worker.todo[0]] + s.worker.todo[1..] && s.worker.todo[0] !in s.worker.todo[1..]
    ensures Distinct(s.worker.todo[1..])
  {
  }

  lemma ThreeActs(s: System, limit: nat)
    ensures Interleave(s, limit, Refreshes(1)) ==
      Act(Act(Act(s, limit, ReadEpoch), limit, ReadStats), limit, Finalise(false))
  {
    hide Act;
    var none: seq<Action> := [];
    AtNext(s, limit, none, ReadEpoch);
    AtNext(s, limit, none + [ReadEpoch], ReadStats);
    AtNext(s, limit, none + [ReadEpoch] + [ReadStats], Finalise(false));
    assert Refreshes(1) == none + [ReadEpoch] + [ReadStats] + [Finalise(false)] by { assert Refreshes(0) == none; }
  }

  /** Undisturbed, the worker shows live statistics for every user it set out to refresh. */
  lemma {:induction false} AllRefreshed(s: System, limit: nat)
    requires Poised(s)
    ensures var t := Interleave(s, limit, Refreshes(|s.worker.todo|));
      && t == s.(moment := s.moment.(store := s.moment.store.(dirty := t.moment.store.dirty)), cache := t.cache,
                 worker := s.worker.(todo := []), unread := t.unread, swept := t.swept)
      && (forall u | u in s.worker.todo :: Shows(t.cache, u, Live(s, limit, u)))
      && (forall u | u !in s.worker.todo :: Get(t.cache, u) == Get(s.cache, u))
      && Settles(s.moment.store.dirty, t.moment.store.dirty)
      && (forall x | x in s.worker.cycle.markers && x.0.user in s.worker.todo ::
            !PendingFor(t.moment.store.dirty, Current, x.0))
    decreases |s.worker.todo|
  {
    hide AllTimeStats, Act, Fresh, DistinctKeys, Get, Settles, Interleave, PendingFor, Distinct;
    var todo := s.worker.todo;
    if todo == [] {
      NoActs(s, limit);
      Unsettled(s.moment.store.dirty, s.worker.cycle.markers, todo);
    } else {
      var next := Interleave(s, limit, Refreshes(1));
      HeadTail(s);
      OneRefresh(s, limit);
      AllRefreshed(next, limit);
      assert Refreshes(|todo|) == Refreshes(1) + Refreshes(|todo| - 1);
      Joined(s, limit, Refreshes(1), Refreshes(|todo| - 1));
      SettleBoth(s, next, Interleave(s, limit, Refreshes(|todo|)));
    }
  }

  lemma NoActs(s: System, limit: nat)
    ensures Interleave(s, limit, Refreshes(0)) == s
  {
  }

  lemma SettleBoth(s: System, next: System, t: System)
    requires Poised(s) && s.worker.todo != []
    requires AcknowledgeAll(s.moment.store.dirty, MarkersOf(s.worker.cycle.markers, s.worker.todo[0]))
      == Some(next.moment.store.dirty)
    requires Settles(next.moment.store.dirty, t.moment.store.dirty)
    requires forall x | x in s.worker.cycle.markers && x.0.user in s.worker.todo[1..] ::
      !PendingFor(t.moment.store.dirty, Current, x.0)
    ensures Settles(s.moment.store.dirty, t.moment.store.dirty)
    ensures forall x | x in s.worker.cycle.markers && x.0.user in s.worker.todo ::
      !PendingFor(t.moment.store.dirty, Current, x.0)
  {
    hide AcknowledgeAll, MarkersOf;
    var user := s.worker.todo[0];
    HeadTail(s);
    AcknowledgeAllEffect(s.moment.store.dirty, MarkersOf(s.worker.cycle.markers, user));
    MarkersOfUser(s.worker.cycle.markers, user);
  }

  /** A cycle from its start to the point where its users are known. */
  function Opening(full: bool, hints: set<nat>, markers: seq<(Key, nat)>, batch: nat): seq<Action> {
    [Begin(full), Observe(hints, markers), ReadPublisher, ReadPage(batch)]
  }

  const CLOSING: seq<Action> := [ReadBacklog, Decide, End]

  function WholeCycle(full: bool, hints: set<nat>, markers: seq<(Key, nat)>, batch: nat, n: nat): seq<Action> {
    Opening(full, hints, markers, batch) + Refreshes(n) + CLOSING
  }

  /** The next users in order: as many as the batch allows, and nobody between the cursor and the last of them left
      out. */
  ghost predicate NextUsers(page: seq<nat>, users: set<nat>, cursor: nat, batch: nat) {
    && (forall i, j | 0 <= i < j < |page| :: page[i] < page[j])
    && (forall u | u in page :: u in users && u > cursor)
    && (page != [] ==> forall u | u in users && cursor < u <= page[|page| - 1] :: u in page)
    && |page| <= batch && (|page| < batch ==> forall u | u in users && u > cursor :: u in page)
  }

  lemma PageIsNext(users: set<nat>, cursor: nat, batch: nat)
    requires batch >= 1
    ensures NextUsers(First(UsersAfter(users, cursor), batch), users, cursor, batch)
  {
    FirstUsers(users, cursor, batch);
  }

  lemma FourActs(s: System, limit: nat, full: bool, hints: set<nat>, markers: seq<(Key, nat)>, batch: nat)
    ensures Interleave(s, limit, Opening(full, hints, markers, batch)) ==
      Act(Act(Act(Act(s, limit, Begin(full)), limit, Observe(hints, markers)), limit, ReadPublisher), limit,
        ReadPage(batch))
  {
    hide Act;
    var none: seq<Action> := [];
    AtNext(s, limit, none, Begin(full));
    AtNext(s, limit, none + [Begin(full)], Observe(hints, markers));
    AtNext(s, limit, none + [Begin(full)] + [Observe(hints, markers)], ReadPublisher);
    AtNext(s, limit, none + [Begin(full)] + [Observe(hints, markers)] + [ReadPublisher], ReadPage(batch));
    assert Opening(full, hints, markers, batch) ==
      none + [Begin(full)] + [Observe(hints, markers)] + [ReadPublisher] + [ReadPage(batch)];
  }

  lemma Opened(s: System, limit: nat, full: bool, hints: set<nat>, markers: seq<(Key, nat)>, batch: nat)
    requires s.worker == Idle && s.waiting == multiset{} && batch >= 1 && ValidTable(s.moment.store.dirty)
    requires DistinctKeys(markers)
    requires forall x | x in markers :: x.0 in s.moment.store.dirty && x.1 == s.moment.store.dirty[x.0].generation
    ensures var t := Interleave(s, limit, Opening(full, hints, markers, batch));
      && t.worker.Working? && Poised(t) && t == s.(worker := t.worker, swept := t.swept, troubles := 0)
      && !t.worker.failed && t.worker.cycle.requested == (full || s.required) && t.worker.cycle.epoch == s.epoch
      && t.worker.cycle.markers == markers
      && (forall u :: u in t.worker.todo <==>
            u in hints || u in t.worker.cycle.page || exists x :: x in markers && x.0.user == u)
      && (if t.worker.cycle.requested
          then NextUsers(t.worker.cycle.page, s.moment.store.users, s.cursor, batch) else t.worker.cycle.page == [])
      && t.worker.cycle.complete == (t.worker.cycle.requested && |t.worker.cycle.page| < batch)
  {
    hide AllTimeStats, Step, First, UsersAfter, Ordered, NextUsers, Distinct, Interleave, DistinctKeys, ValidTable;
    FourActs(s, limit, full, hints, markers, batch);
    PageIsNext(s.moment.store.users, s.cursor, batch);
    var t := Interleave(s, limit, Opening(full, hints, markers, batch));
    var users := hints + (set x | x in markers :: x.0.user) + (set u | u in t.worker.cycle.page);
    OrderedDistinct(users);
    forall u ensures u in t.worker.todo <==> u in users { OrderedKeeps(users, u); }
  }

  lemma Closed(s: System, limit: nat)
    requires s.worker.Working? && s.worker.todo == [] && !s.worker.failed
    ensures var t := Interleave(s, limit, CLOSING); var c := s.worker.cycle;
      var done := c.requested && c.complete && s.moment.store.dirty == map[];
      && t == s.(worker := Idle, cursor := t.cursor, required := t.required, epoch := t.epoch, troubles := t.troubles)
      && t.cursor == (if done then 0 else if c.requested && c.page != [] then c.page[|c.page| - 1] else s.cursor)
      && t.required == (if !c.requested then s.required else if done then s.epoch != c.epoch && s.required else true)
  {
    assert Interleave(s, limit, CLOSING) == Act(Act(Act(s, limit, ReadBacklog), limit, Decide), limit, End) by {
      ClosingActs(s, limit);
    }
    hide Act, Interleave;
    BacklogRead(s, limit);
    LastActs(Act(s, limit, ReadBacklog), limit);
  }

  lemma BacklogRead(s: System, limit: nat)
    requires s.worker.Working? && s.worker.todo == []
    ensures Act(s, limit, ReadBacklog) == s.(worker :=
      if !s.worker.cycle.requested then Projecting
      else Deciding(s.worker.cycle, s.worker.failed, s.moment.store.dirty == map[]))
  {
  }

  lemma LastActs(s: System, limit: nat)
    requires s.worker.Projecting? || s.worker.Deciding?
    ensures Act(Act(s, limit, Decide), limit, End) ==
      (if s.worker.Deciding? then DecideCycle(s) else s).(worker := Idle)
  {
    hide AllTimeStats, Step;
  }

  lemma ClosingActs(s: System, limit: nat)
    ensures Interleave(s, limit, CLOSING) == Act(Act(Act(s, limit, ReadBacklog), limit, Decide), limit, End)
  {
    hide Act;
    var none: seq<Action> := [];
    AtNext(s, limit, none, ReadBacklog);
    AtNext(s, limit, none + [ReadBacklog], Decide);
    AtNext(s, limit, none + [ReadBacklog] + [Decide], End);
    assert CLOSING == none + [ReadBacklog] + [Decide] + [End];
  }

  /** A cycle that no other action interrupts, once every invalidation is made and its markers are current: it shows
      live statistics for every hinted and marked user and, in a full cycle, for the next users after the cursor; it
      ends the current work of its markers; and it ends or advances the sweep and the demand for reconciliation. */
  lemma UndisturbedCycle(
      s: System, limit: nat, full: bool, hints: set<nat>, markers: seq<(Key, nat)>, batch: nat)
    returns (n: nat, page: seq<nat>)
    requires s.worker == Idle && s.waiting == multiset{} && batch >= 1 && ValidTable(s.moment.store.dirty)
    requires DistinctKeys(markers)
    requires forall x | x in markers :: x.0 in s.moment.store.dirty && x.1 == s.moment.store.dirty[x.0].generation
    ensures var t := Interleave(s, limit, WholeCycle(full, hints, markers, batch, n));
      var requested := full || s.required;
      && t.worker == Idle && t.waiting == multiset{}
      && t.moment == s.moment.(store := s.moment.store.(dirty := t.moment.store.dirty))
      && Settles(s.moment.store.dirty, t.moment.store.dirty)
      && (if requested then NextUsers(page, s.moment.store.users, s.cursor, batch) else page == [])
      && (forall u | u in hints || u in page :: Shows(t.cache, u, AllTimeStats(s.moment.store.bookmarks, u, limit)))
      && (forall x | x in markers :: !PendingFor(t.moment.store.dirty, Current, x.0)
            && Shows(t.cache, x.0.user, AllTimeStats(s.moment.store.bookmarks, x.0.user, limit)))
      && (requested ==>
            var done := |page| < batch && t.moment.store.dirty == map[];
            && t.required == !done
            && t.cursor == if done then 0 else if page != [] then page[|page| - 1] else s.cursor)
      && (!requested ==> t.required == s.required && t.cursor == s.cursor)
  {
    hide Act, Interleave, AllTimeStats, NextUsers, Poised, Settles, PendingFor, DistinctKeys, Shows, Get;
    var poised := Interleave(s, limit, Opening(full, hints, markers, batch));
    Opened(s, limit, full, hints, markers, batch);
    n, page := |poised.worker.todo|, poised.worker.cycle.page;
    var worked := Interleave(poised, limit, Refreshes(n));
    AllRefreshed(poised, limit);
    Closed(worked, limit);
    Joined(s, limit, Opening(full, hints, markers, batch), Refreshes(n));
    Joined(s, limit, Opening(full, hints, markers, batch) + Refreshes(n), CLOSING);
  }
}
