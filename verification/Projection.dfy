/**
 Bookmark mutations, the restartable baseline, and the dirty and overdue projection steps over one database state.
 Each function is one transaction: it returns the committed store, or an outcome that leaves the store as it was.
 */
module Projection {
  import opened Orders
  import opened Calendar
  import opened Statistics
  import opened Dirty

  /** A weekly payload with the version that scopes its hash; the version names the top-tags limit it was computed
      with. */
  datatype Calculation = Calculation(version: nat, payload: Stats)

  /** One row of the point table; ids are assigned in insertion order. */
  datatype Point = Point(id: nat, key: Key, revision: nat, supersedes: Option<nat>, calculation: Calculation)

  datatype Status = Pending | Running | Active | Failed

  datatype Baseline = Baseline(status: Status, version: nat, checkpoint: Option<Key>)

  datatype Store = Store(
    users: set<nat>, bookmarks: Table, dirty: DirtyTable,
    working: map<Key, Calculation>, points: seq<Point>, baseline: Option<Baseline>)

  datatype Error = NotFound | IntegrityFailure | VersionMismatch | WrongTransition | BadCandidate | BrokenChain

  datatype Result<+T> = Ok(value: T) | Err(error: Error)

  function KeyOf(b: Bookmark): Key { Key(b.user, WeekOf(b.createdAt)) }

  function Calculate(t: Table, version: nat, k: Key): Calculation {
    Calculation(version, WeeklyStats(t, k.user, k.week, version))
  }

  // ---------------------------------------------------------------- bookmark mutations

  datatype Patch = Patch(url: Option<string>, title: Option<string>, description: Option<Option<string>>,
    tags: Option<set<string>>)

  function Given<T>(field: Option<T>, current: T): T { if field.Some? then field.value else current }

  /** classify_patch: the target row, before its update time. */
  function Target(b: Bookmark, p: Patch): Bookmark {
    b.(url := Given(p.url, b.url), title := Given(p.title, b.title),
       description := Given(p.description, b.description), tags := Given(p.tags, b.tags))
  }

  function NextUpdatedAt(current: Instant, observed: Instant): Instant {
    if observed > current + 1 then observed else current + 1
  }

  function Owned(s: Store, user: nat, id: nat): bool { id in s.bookmarks && s.bookmarks[id].user == user }

  function Create(s: Store, id: nat, b: Bookmark): Result<Store> {
    if b.user !in s.users || id in s.bookmarks then Err(IntegrityFailure) else
      Ok(s.(bookmarks := s.bookmarks[id := b], dirty := Mark(s.dirty, KeyOf(b), b.createdAt)))
  }

  function PatchBookmark(s: Store, user: nat, id: nat, p: Patch, observed: Instant): Result<Store> {
    if !Owned(s, user, id) then Err(NotFound) else
      var b := s.bookmarks[id];
      var target := Target(b, p);
      if target == b then Ok(s) else
        var updatedAt := NextUpdatedAt(b.updatedAt, observed);
        Ok(s.(bookmarks := s.bookmarks[id := target.(updatedAt := updatedAt)],
          dirty := Mark(s.dirty, KeyOf(b), updatedAt)))
  }

  function Delete(s: Store, user: nat, id: nat, observed: Instant): Result<Store> {
    if !Owned(s, user, id) then Err(NotFound) else
      Ok(s.(bookmarks := s.bookmarks - {id}, dirty := Mark(s.dirty, KeyOf(s.bookmarks[id]), observed)))
  }

  /** The current consumer's transaction: every acknowledgement takes effect, or none does. */
  function AcknowledgeAll(d: DirtyTable, acks: seq<(Key, nat)>): Option<DirtyTable> {
    if acks == [] then Some(d) else
      var (d', status) := Acknowledge(d, Current, acks[0].0, acks[0].1);
      if status == Acknowledgement.Stale then None else AcknowledgeAll(d', acks[1..])
  }

  // ---------------------------------------------------------------- points and working rows

  /** ORDER BY revision DESC LIMIT 1 */
  function EffectivePoint(points: seq<Point>, k: Key): Option<Point> {
    if points == [] then None else
      var last := points[|points| - 1];
      var rest := EffectivePoint(points[..|points| - 1], k);
      if last.key == k && (rest.None? || rest.value.revision <= last.revision) then Some(last) else rest
  }

  /** append_point, with its guard. */
  function AppendPoint(
      points: seq<Point>, k: Key, revision: nat, supersedes: Option<nat>, c: Calculation): Result<seq<Point>>
  {
    var current := EffectivePoint(points, k);
    if (revision == 1 && (current.Some? || supersedes.Some?))
       || (revision != 1
         && (current.None? || revision != current.value.revision + 1 || supersedes != Some(current.value.id)))
    then Err(BrokenChain)
    else Ok(points + [Point(|points| + 1, k, revision, supersedes, c)])
  }

  datatype HashComparison = Same | Changed | Incomparable

  function CompareHashes(stored: Calculation, candidate: Calculation): HashComparison {
    if stored.version != candidate.version then Incomparable else if stored.payload == candidate.payload then Same
      else Changed
  }

  /** _persist_developed: a root, a changed correction, or nothing. */
  function PersistDeveloped(points: seq<Point>, k: Key, c: Calculation): Result<seq<Point>> {
    match EffectivePoint(points, k)
    case None => AppendPoint(points, k, 1, None, c)
    case Some(existing) =>
      match CompareHashes(existing.calculation, c)
      case Incomparable => Err(VersionMismatch)
      case Same => Ok(points)
      case Changed => AppendPoint(points, k, existing.revision + 1, Some(existing.id), c)
  }

  function ReplaceWorking(working: map<Key, Calculation>, k: Key, c: Calculation): Result<map<Key, Calculation>> {
    if k in working && working[k].version != c.version then Err(VersionMismatch) else Ok(working[k := c])
  }

  /** _ensure_current_working */
  function EnsureCurrent(s: Store, version: nat, user: nat, now: Instant): Result<Store> {
    var k := Key(user, WeekOf(now));
    if user !in s.users then Ok(s)
    else if k in s.working then (if s.working[k].version != version then Err(VersionMismatch) else Ok(s))
    else Ok(s.(working := s.working[k := Calculate(s.bookmarks, version, k)]))
  }

  function RequireActive(b: Option<Baseline>, version: nat): Option<Error> {
    if b.None? then Some(WrongTransition)
    else if b.value.version != version then Some(VersionMismatch)
    else if b.value.status != Active then Some(WrongTransition)
    else None
  }

  // ---------------------------------------------------------------- the projection steps

  datatype Outcome = Applied(store: Store) | Deferred | Stale | Absent | Refused(error: Error)

  /** Close a week: bring its points up to date, drop its working row, and open the user's current week. */
  function Develop(s: Store, version: nat, k: Key, now: Instant): Result<Store> {
    match PersistDeveloped(s.points, k, Calculate(s.bookmarks, version, k))
    case Err(e) => Err(e)
    case Ok(points) => EnsureCurrent(s.(points := points, working := s.working - {k}), version, k.user, now)
  }

  function Refresh(s: Store, version: nat, k: Key, now: Instant): Result<Store> {
    if WeekEnd(k.week) <= now then Develop(s, version, k, now) else
      match ReplaceWorking(s.working, k, Calculate(s.bookmarks, version, k))
      case Err(e) => Err(e)
      case Ok(working) => Ok(s.(working := working))
  }

  /** process_dirty */
  function ProcessDirty(s: Store, version: nat, k: Key, generation: nat, now: Instant): Outcome {
    if WeekStart(k.week) > now then Refused(BadCandidate)
    else if RequireActive(s.baseline, version).Some? then Refused(RequireActive(s.baseline, version).value)
    else
      match Refresh(s, version, k, now)
      case Err(e) => Refused(e)
      case Ok(refreshed) =>
        var (dirty, status) := Acknowledge(refreshed.dirty, Consumer.Projection, k, generation);
        if status == Acknowledgement.Stale then Outcome.Stale else Applied(refreshed.(dirty := dirty))
  }

  /** process_overdue */
  function ProcessOverdue(s: Store, version: nat, k: Key, now: Instant): Outcome {
    if RequireActive(s.baseline, version).Some? then Refused(RequireActive(s.baseline, version).value)
    else if k !in s.working then Absent
    else if WeekEnd(k.week) > now then Refused(BadCandidate)
    else if s.working[k].version != version then Refused(VersionMismatch)
    else if PendingFor(s.dirty, Consumer.Projection, k) then Deferred
    else
      match Develop(s, version, k, now)
      case Err(e) => Refused(e)
      case Ok(developed) => Applied(developed)
  }

  // ---------------------------------------------------------------- the baseline

  lemma KeyOrder()
    ensures TotalOrder(KeyLe)
  {
  }

  /** Keys of surviving bookmarks strictly after the checkpoint. */
  function Remaining(t: Table, checkpoint: Option<Key>): set<Key> {
    set id | id in t && (checkpoint.None? || !KeyLe(KeyOf(t[id]), checkpoint.value)) :: KeyOf(t[id])
  }

  /** surviving_candidates_after, before its LIMIT. */
  function Candidates(t: Table, checkpoint: Option<Key>): seq<Key> {
    KeyOrder();
    Sort(Remaining(t, checkpoint), KeyLe)
  }

  /** The two tables a baseline page writes. */
  datatype Rows = Rows(working: map<Key, Calculation>, points: seq<Point>)

  function PersistCandidate(t: Table, rows: Rows, version: nat, k: Key, now: Instant): Result<Rows> {
    var c := Calculate(t, version, k);
    if WeekStart(k.week) > now then Err(BadCandidate)
    else if WeekEnd(k.week) <= now then
      match EffectivePoint(rows.points, k)
      case None =>
        (match AppendPoint(rows.points, k, 1, None, c)
         case Err(e) => Err(e)
         case Ok(points) => Ok(rows.(points := points)))
      case Some(existing) => if existing.calculation.version != version then Err(VersionMismatch) else Ok(rows)
    else
      match ReplaceWorking(rows.working, k, c)
      case Err(e) => Err(e)
      case Ok(working) => Ok(rows.(working := working))
  }

  function PersistPage(t: Table, rows: Rows, version: nat, page: seq<Key>, now: Instant): Result<Rows> {
    if page == [] then Ok(rows) else
      match PersistPage(t, rows, version, page[..|page| - 1], now)
      case Err(e) => Err(e)
      case Ok(before) => PersistCandidate(t, before, version, page[|page| - 1], now)
  }

  /** start_or_resume: create the pending row if there is none, check its version, enter running. */
  function StartOrResume(b: Option<Baseline>, version: nat): Result<Baseline> {
    if b.None? then Ok(Baseline(Running, version, None))
    else if b.value.version != version then Err(VersionMismatch)
    else match b.value.status
      case Failed => Err(WrongTransition)
      case Pending => Ok(b.value.(status := Running))
      case _ => Ok(b.value)
  }

  /** BaselineRunner.run_step */
  function BaselineStep(s: Store, version: nat, batch: nat, now: Instant): Result<Store>
    requires batch >= 1
  {
    match StartOrResume(s.baseline, version)
    case Err(e) => Err(e)
    case Ok(started) =>
      if started.status == Active then Ok(s.(baseline := Some(started))) else
        var candidates := Candidates(s.bookmarks, started.checkpoint);
        var page := First(candidates, batch);
        match PersistPage(s.bookmarks, Rows(s.working, s.points), version, page, now)
        case Err(e) => Err(e)
        case Ok(rows) =>
          var advanced := if page == [] then started else started.(checkpoint := Some(page[|page| - 1]));
          Ok(s.(working := rows.working, points := rows.points,
                baseline := Some(if |candidates| > batch then advanced else advanced.(status := Active))))
  }

  /** The explicit failure transition. */
  function FailBaseline(b: Option<Baseline>, version: nat): Result<Baseline> {
    if b.None? then Err(WrongTransition)
    else if b.value.version != version then Err(VersionMismatch)
    else if b.value.status == Active then Err(WrongTransition)
    else Ok(b.value.(status := Failed))
  }

  // ---------------------------------------------------------------- runs

  /** One committed or refused transaction, or the passing of time. */
  datatype Event =
    | Tick(now: Instant)
    | Register(user: nat)
    | CreateEvent(id: nat, row: Bookmark)
    | PatchEvent(user: nat, id: nat, patch: Patch, observed: Instant)
    | DeleteEvent(user: nat, id: nat, observed: Instant)
    | CurrentEvent(acks: seq<(Key, nat)>)
    | BaselineEvent(version: nat, batch: nat)
    | FailEvent(version: nat)
    | DirtyEvent(version: nat, key: Key, generation: nat)
    | OverdueEvent(version: nat, key: Key)

  datatype Moment = Moment(store: Store, now: Instant)

  function Committed(s: Store, r: Result<Store>): Store { if r.Ok? then r.value else s }

  function After(s: Store, o: Outcome): Store { if o.Applied? then o.store else s }

  function StoreAfter(s: Store, now: Instant, e: Event): Store {
    match e
    case Tick(_) => s
    case Register(user) => s.(users := s.users + {user})
    // A request reads its creation time from the clock before it commits.
    case CreateEvent(id, row) => if row.createdAt > now then s else Committed(s, Create(s, id, row))
    case PatchEvent(user, id, patch, observed) => Committed(s, PatchBookmark(s, user, id, patch, observed))
    case DeleteEvent(user, id, observed) => Committed(s, Delete(s, user, id, observed))
    case CurrentEvent(acks) =>
      (match AcknowledgeAll(s.dirty, acks)
       case None => s
       case Some(dirty) => s.(dirty := dirty))
    case BaselineEvent(version, batch) => if batch == 0 then s else Committed(s, BaselineStep(s, version, batch, now))
    case FailEvent(version) =>
      (match FailBaseline(s.baseline, version)
       case Err(_) => s
       case Ok(b) => s.(baseline := Some(b)))
    case DirtyEvent(version, key, generation) => After(s, ProcessDirty(s, version, key, generation, now))
    case OverdueEvent(version, key) => After(s, ProcessOverdue(s, version, key, now))
  }

  function Step(m: Moment, e: Event): Moment {
    Moment(StoreAfter(m.store, m.now, e), if e.Tick? && e.now > m.now then e.now else m.now)
  }

  function Run(m: Moment, events: seq<Event>): Moment {
    if events == [] then m else Step(Run(m, events[..|events| - 1]), events[|events| - 1])
  }
}
