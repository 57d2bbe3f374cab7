/**
 The current-statistics worker interleaved with request threads, over the database of Projection and the snapshot cache.
 Each action is one lock section or one transaction. A mutation is two actions, its commit and then its invalidation;
 a refresh is three: epoch read, statistics read, and the acknowledge-publish-commit transaction.
 Fields named in the last line of System are an audit trail that no action reads.
 */
module CurrentStats {
  import opened Orders
  import opened Calendar
  import opened Statistics
  import opened Dirty
  import opened Projection
  import opened Snapshots

  /** What a cycle read before refreshing: the publisher's epoch, a page of users, and the dirty markers. */
  datatype Cycle = Cycle(requested: bool, epoch: nat, page: seq<nat>, complete: bool, markers: seq<(Key, nat)>,
    present: set<nat>)

  datatype Attempt = Ready | HasEpoch(epoch: nat) | HasStats(epoch: nat, stats: Stats, at: Instant, since: set<Key>)

  datatype Worker =
    | Idle
    | Started(full: bool)
    | Observed(full: bool, hints: set<nat>, markers: seq<(Key, nat)>)
    | Paging(hints: set<nat>, cycle: Cycle)
    | Working(cycle: Cycle, todo: seq<nat>, failed: bool, refresh: Attempt)
    | Deciding(cycle: Cycle, failed: bool, backlogEmpty: bool)
    | Projecting

  datatype System = System(
    moment: Moment, cache: Cache, required: bool, epoch: nat, cursor: nat, worker: Worker,
    waiting: multiset<nat>, unread: set<Key>, swept: set<nat>, troubles: nat)

  datatype Action =
    | Mutate(event: Event)
    | Invalidate(user: nat)
    | RecordTrouble
    | Time(now: Instant)
    | Join(user: nat)
    | Begin(full: bool)
    | Observe(hints: set<nat>, markers: seq<(Key, nat)>)
    | ReadPublisher
    | ReadPage(batch: nat)
    | ReadEpoch
    | ReadStats
    | Finalise(commitFails: bool)
    | FailUser
    | ReadBacklog
    | Decide
    | Abort
    | Project(event: Event)
    | End

  function Live(s: System, limit: nat, user: nat): Stats { AllTimeStats(s.moment.store.bookmarks, user, limit) }

  predicate NatLe(a: nat, b: nat) { a <= b }

  lemma NatOrder()
    ensures TotalOrder(NatLe)
  {
  }

  function Ordered(users: set<nat>): (list: seq<nat>)
    ensures forall i, j | 0 <= i < j < |list| :: list[i] < list[j]
    ensures forall u :: u in list <==> u in users
  {
    NatOrder();
    Sort<nat>(users, NatLe)
  }

  /** user_ids_after, before its LIMIT. */
  function UsersAfter(users: set<nat>, cursor: nat): seq<nat> { Ordered(set u | u in users && u > cursor) }

  function MarkersOf(markers: seq<(Key, nat)>, user: nat): seq<(Key, nat)> {
    if markers == [] then [] else
      (if markers[0].0.user == user then [markers[0]] else []) + MarkersOf(markers[1..], user)
  }

  function MutatedKey(m: Moment, e: Event): Option<Key> {
    if Step(m, e).store.bookmarks == m.store.bookmarks then None
    else if e.CreateEvent? then Some(KeyOf(e.row))
    else if e.PatchEvent? || e.DeleteEvent? then Some(KeyOf(m.store.bookmarks[e.id]))
    else None
  }

  function Mutation(s: System, e: Event): System {
    var moved := s.(moment := Step(s.moment, e));
    match MutatedKey(s.moment, e)
    case None => s
    case Some(k) =>
      moved.(waiting := s.waiting + multiset{k.user},
             unread := s.unread + {k},
             worker := if s.worker.Working? && s.worker.refresh.HasStats? && s.worker.todo != []
               && s.worker.todo[0] == k.user
                       then s.worker.(refresh := s.worker.refresh.(since := s.worker.refresh.since + {k}))
                       else s.worker)
  }

  function Trouble(s: System): System { s.(required := true, epoch := s.epoch + 1, troubles := s.troubles + 1) }

  function UserDone(s: System, failed: bool): System
    requires s.worker.Working? && s.worker.todo != []
  {
    s.(worker := s.worker.(todo := s.worker.todo[1..], failed := s.worker.failed || failed, refresh := Ready))
  }

  /** The end of _refresh_user: acknowledge every marker, publish, commit. */
  function FinaliseUser(s: System, commitFails: bool): System
    requires s.worker.Working? && s.worker.todo != [] && s.worker.refresh.HasStats?
  {
    var user, r := s.worker.todo[0], s.worker.refresh;
    var acks := MarkersOf(s.worker.cycle.markers, user);
    var (cache, installed) := Published(s.cache, user, r.stats, r.at, r.epoch);
    if AcknowledgeAll(s.moment.store.dirty, acks).None? || !installed then UserDone(s, true)
    else if commitFails && acks != [] then UserDone(s.(cache := Invalidated(cache, user)), true)
    else UserDone(s.(moment := Step(s.moment, CurrentEvent(acks)), cache := cache,
                     unread := (set k | k in s.unread && k.user != user) + r.since,
                     swept := s.swept + {user}), false)
  }

  /** The end of a full cycle: reset the sweep and acknowledge, advance the sweep, or try again. */
  function DecideCycle(s: System): System
    requires s.worker.Deciding?
  {
    var c, success := s.worker.cycle, !s.worker.failed;
    var done := s.(worker := Projecting);
    if success && c.complete && s.worker.backlogEmpty then
      done.(cursor := 0, required := if s.epoch == c.epoch then false else s.required)
    else if success && c.page != [] then Trouble(done.(cursor := c.page[|c.page| - 1]))
    else Trouble(done)
  }

  /** One action; an action that is not enabled changes nothing. */
  function Act(s: System, limit: nat, a: Action): System {
    match a
    case Mutate(e) => Mutation(s, e)
    case Invalidate(user) =>
      if user !in s.waiting then s else s.(cache := Invalidated(s.cache, user), waiting := s.waiting - multiset{user})
    case RecordTrouble => Trouble(s)
    case Time(now) => s.(moment := Step(s.moment, Tick(now)))
    case Join(user) =>
      if user == 0 || (exists u | u in s.moment.store.users :: u >= user) then s
      else s.(moment := Step(s.moment, Register(user)))
    case Begin(full) => if s.worker.Idle? then s.(worker := Started(full)) else s
    case Observe(hints, markers) =>
      if s.worker.Started?
        && (forall x | x in markers :: x.0 in s.moment.store.dirty && x.1 == s.moment.store.dirty[x.0].generation)
      then s.(worker := Observed(s.worker.full, hints, markers)) else s
    case ReadPublisher =>
      if !s.worker.Observed? then s else
        var cycle := Cycle(s.worker.full || s.required, s.epoch, [], false, s.worker.markers, {});
        s.(worker := Paging(s.worker.hints, cycle), troubles := 0)
    case ReadPage(batch) =>
      if !s.worker.Paging? || batch == 0 then s else
        var c := s.worker.cycle;
        var page := if c.requested then First(UsersAfter(s.moment.store.users, s.cursor), batch) else [];
        var users := s.worker.hints + (set x | x in c.markers :: x.0.user) + (set u | u in page);
        var read := c.(page := page, complete := c.requested && |page| < batch, present := s.moment.store.users);
        s.(worker := Working(read, Ordered(users), false, Ready),
           swept := if c.requested && s.cursor == 0 then {} else s.swept)
    case ReadEpoch =>
      if s.worker.Working? && s.worker.todo != [] && s.worker.refresh.Ready?
      then s.(worker := s.worker.(refresh := HasEpoch(EpochOf(s.cache, s.worker.todo[0])))) else s
    case ReadStats =>
      if s.worker.Working? && s.worker.todo != [] && s.worker.refresh.HasEpoch?
      then
        var read := HasStats(s.worker.refresh.epoch, Live(s, limit, s.worker.todo[0]), s.moment.now, {});
        s.(worker := s.worker.(refresh := read))
      else s
    case Finalise(commitFails) =>
      if s.worker.Working? && s.worker.todo != [] && s.worker.refresh.HasStats? then FinaliseUser(s, commitFails) else s
    case FailUser => if s.worker.Working? && s.worker.todo != [] then UserDone(s, true) else s
    case ReadBacklog =>
      if !s.worker.Working? || s.worker.todo != [] then s
      else if !s.worker.cycle.requested then s.(worker := Projecting)
      else s.(worker := Deciding(s.worker.cycle, s.worker.failed, s.moment.store.dirty == map[]))
    case Decide => if s.worker.Deciding? then DecideCycle(s) else s
    case Abort => if s.worker.Idle? || s.worker.Projecting? then s else Trouble(s.(worker := Projecting))
    case Project(e) =>
      if s.worker.Projecting? && (e.BaselineEvent? || e.DirtyEvent? || e.OverdueEvent?)
      then s.(moment := Step(s.moment, e)) else s
    case End => if s.worker.Projecting? then s.(worker := Idle) else s
  }

  function Interleave(s: System, limit: nat, actions: seq<Action>): System {
    if actions == [] then s else Act(Interleave(s, limit, actions[..|actions| - 1]), limit, actions[|actions| - 1])
  }

  datatype Source = Snapshot | LiveSql

  /** CurrentStatsService.read */
  function Read(
      s: System, limit: nat, user: nat, enabled: bool, healthy: bool, now: Instant, staleAfter: nat): (Stats, Source)
  {
    match if enabled && healthy then Get(s.cache, user) else None
    case Some(r) => if r.generatedAt <= now <= r.generatedAt + staleAfter then (r.stats, Snapshot)
      else (Live(s, limit, user), LiveSql)
    case None => (Live(s, limit, user), LiveSql)
  }
}
