/** The promises of the projection protocol, over every run from an initial state. */
module ProjectionTheorems {
  import opened Orders
  import opened Calendar
  import opened Statistics
  import opened Dirty
  import opened Projection
  import opened ProjectionProofs
  import opened Answers

  /** A calculation carries its version, and its payload is the answer for the user's bookmarks created in the week. */
  lemma CalculateIsLive(t: Table, version: nat, k: Key)
    ensures var c := Calculate(t, version, k);
      var rows := map id | id in t && t[id].user == k.user
        && WeekStart(k.week) <= t[id].createdAt < WeekEnd(k.week) :: t[id];
      c.version == version && Describes(c.payload, rows, version) && AnswersSql(c.payload, t, rows, version)
  {
    hide Describes, AnswersSql, WeeklyStats;
    WeeklyDescribes(t, k.user, k.week, version);
  }

  /** A run takes its events one after the other. */
  lemma RunGoesOn(start: Moment, events: seq<Event>, e: Event)
    ensures Run(start, []) == start && Run(start, events + [e]) == Step(Run(start, events), e)
  {
    hide Step;
    assert (events + [e])[..|events|] == events;
  }

  /** Whatever the interleaving: once the baseline is active, a key with no pending projection work shows the answer for
      the bookmarks its user then has in the week, under the baseline's version, or has neither a row nor a bookmark.
      Before that, the same holds up to the checkpoint. */
  lemma ReachableIsUpToDate(start: Moment, events: seq<Event>, k: Key)
    requires Initial(start)
    ensures var s := Run(start, events).store;
      s.baseline.Some?
      && (s.baseline.value.status == Active
        || (s.baseline.value.checkpoint.Some?
            && (var last := s.baseline.value.checkpoint.value;
                k.user < last.user || (k.user == last.user && k.week <= last.week))))
      && (k in s.dirty ==> s.dirty[k].projection == s.dirty[k].generation)
      ==> match EffectiveRow(s, k)
          case Some(c) =>
            c == Calculate(s.bookmarks, s.baseline.value.version, k) && c.version == s.baseline.value.version
            && (var rows := map id | id in s.bookmarks && s.bookmarks[id].user == k.user
                  && WeekStart(k.week) <= s.bookmarks[id].createdAt < WeekEnd(k.week) :: s.bookmarks[id];
                Describes(c.payload, rows, c.version) && AnswersSql(c.payload, s.bookmarks, rows, c.version))
          case None => forall id | id in s.bookmarks && s.bookmarks[id].user == k.user ::
            !(WeekStart(k.week) <= s.bookmarks[id].createdAt < WeekEnd(k.week))
  {
    hide Chained, WeeklyStats, SoundRows, Describes, AnswersSql;
    InitialHolds(start);
    RunKeeps(start, events);
    var s := Run(start, events).store;
    if Covered(s, k) && !PendingFor(s.dirty, Consumer.Projection, k) {
      assert UpToDate(s, k);
      CalculateIsLive(s.bookmarks, s.baseline.value.version, k);
      if EffectiveRow(s, k).None? { NoneInWindow(s.bookmarks, k); }
    }
  }

  lemma NoneInWindow(t: Table, k: Key)
    requires WindowRows(t, k.user, k.week) == map[]
    ensures forall id | id in t && t[id].user == k.user :: !(WeekStart(k.week) <= t[id].createdAt < WeekEnd(k.week))
  {
    forall id | id in t && t[id].user == k.user
      ensures !(WeekStart(k.week) <= t[id].createdAt < WeekEnd(k.week))
    {
      assert id !in WindowRows(t, k.user, k.week);
    }
  }

  /** A key is never both developing and developed, and only ended weeks are developed. */
  lemma DevelopedIsClosed(start: Moment, events: seq<Event>, p: Point)
    requires Initial(start) && p in Run(start, events).store.points
    ensures WeekEnd(p.key.week) <= Run(start, events).now
    ensures p.key !in Run(start, events).store.working
  {
    hide Chained, WeeklyStats;
    InitialHolds(start);
    RunKeeps(start, events);
    EffectiveIsPoint(Run(start, events).store.points, p.key);
  }

  /** A user has at most one developing row for a week that has not ended: that of the present week. */
  lemma OneOpenWeek(start: Moment, events: seq<Event>, k: Key)
    requires Initial(start) && k in Run(start, events).store.working
    ensures WeekEnd(k.week) <= Run(start, events).now || k.week == WeekOf(Run(start, events).now)
  {
    hide Chained, WeeklyStats;
    InitialHolds(start);
    RunKeeps(start, events);
    WindowsPartition(Run(start, events).now, k.week);
  }

  // ---------------------------------------------------------------- revision chains

  function History(points: seq<Point>, k: Key): seq<Point> {
    if points == [] then [] else
      History(points[..|points| - 1], k) + (if points[|points| - 1].key == k then [points[|points| - 1]] else [])
  }

  ghost predicate RevisionChain(history: seq<Point>) {
    forall i | 0 <= i < |history| ::
      && history[i].revision == i + 1
      && (i == 0 ==> history[i].supersedes == None)
      && (i > 0 ==> history[i].supersedes == Some(history[i - 1].id)
                    && history[i].calculation.payload != history[i - 1].calculation.payload)
  }

  /** What a history's last point is; None for an empty one. */
  function LastOf(history: seq<Point>): Option<Point> { if history == [] then None else Some(history[|history| - 1]) }

  lemma ChainGrows(history: seq<Point>, p: Point)
    requires RevisionChain(history)
    requires match LastOf(history)
      case None => p.revision == 1 && p.supersedes == None
      case Some(q) =>
        p.revision == q.revision + 1 && p.supersedes == Some(q.id)
        && p.calculation.payload != q.calculation.payload
    ensures RevisionChain(history + [p])
  {
  }

  lemma {:induction false} ChainedHistory(points: seq<Point>, k: Key)
    requires Chained(points)
    ensures RevisionChain(History(points, k))
    ensures EffectivePoint(points, k) == LastOf(History(points, k))
  {
    if points != [] {
      hide RevisionChain;
      var before, last := points[..|points| - 1], points[|points| - 1];
      ChainedHistory(before, k);
      if last.key == k {
        ChainGrows(History(before, k), last);
      } else {
        assert History(before, k) + [] == History(before, k);
      }
    }
  }

  /** Revisions run 1, 2, ... without a gap, each superseding the one before and differing from it; the last is
      effective. */
  lemma HistoryIsChain(start: Moment, events: seq<Event>, k: Key)
    requires Initial(start)
    ensures var points := Run(start, events).store.points; var history := History(points, k);
      && RevisionChain(history)
      && EffectivePoint(points, k) == LastOf(history)
      && (forall p :: p in history <==> p in points && p.key == k)
      && (forall i, j | 0 <= i < j < |points| :: points[i].id < points[j].id)
  {
    InitialHolds(start);
    RunKeeps(start, events);
    ChainedHistory(Run(start, events).store.points, k);
    HistoryHolds(Run(start, events).store.points, k);
    ChainedIds(Run(start, events).store.points);
  }

  lemma {:induction false} HistoryHolds(points: seq<Point>, k: Key)
    ensures forall p :: p in History(points, k) <==> p in points && p.key == k
  {
    if points != [] {
      HistoryHolds(points[..|points| - 1], k);
      assert points == points[..|points| - 1] + [points[|points| - 1]];
    }
  }

  lemma {:induction false} ChainedIds(points: seq<Point>)
    requires Chained(points)
    ensures forall i | 0 <= i < |points| :: points[i].id == i + 1
  {
    if points != [] {
      ChainedIds(points[..|points| - 1]);
      assert points == points[..|points| - 1] + [points[|points| - 1]];
    }
  }

  lemma {:induction false} HistoryOfPrefix(before: seq<Point>, after: seq<Point>, k: Key)
    requires before <= after
    ensures History(before, k) <= History(after, k)
  {
    if |after| > |before| {
      HistoryOfPrefix(before, after[..|after| - 1], k);
    } else {
      assert before == after;
    }
  }

  /** Nothing that happens later rewrites developed history, and an active baseline stays active. */
  lemma {:induction false} HistoryGrows(start: Moment, events: seq<Event>, later: seq<Event>, k: Key)
    requires Initial(start)
    ensures Extends(Run(start, events).store, Run(start, events + later).store)
    ensures History(Run(start, events).store.points, k) <= History(Run(start, events + later).store.points, k)
  {
    hide Invariant;
    if later == [] {
      assert events + later == events;
    } else {
      var most := later[..|later| - 1];
      HistoryGrows(start, events, most, k);
      assert (events + later)[..|events + later| - 1] == events + most;
      InitialHolds(start);
      RunKeeps(start, events + most);
      StepKeeps(Run(start, events + most), later[|later| - 1]);
    }
    HistoryOfPrefix(Run(start, events).store.points, Run(start, events + later).store.points, k);
  }

  /** A committed mutation leaves its key pending for both consumers, in the same transaction. */
  lemma MutationPends(start: Moment, events: seq<Event>, e: Event)
    requires Initial(start) && (e.CreateEvent? || e.PatchEvent? || e.DeleteEvent?)
    ensures var s := Run(start, events).store; var after := StoreAfter(s, Run(start, events).now, e);
      after.bookmarks != s.bookmarks ==>
        var k := KeyOf(if e.CreateEvent? then e.row else s.bookmarks[e.id]);
        PendingFor(after.dirty, Current, k) && PendingFor(after.dirty, Consumer.Projection, k)
  {
    hide Chained, WeeklyStats, SoundRows;
    InitialHolds(start);
    RunKeeps(start, events);
    var s := Run(start, events).store;
    MutationsMark(s, e, Run(start, events).now);
    if StoreAfter(s, Run(start, events).now, e).bookmarks != s.bookmarks {
      MarkPends(s.dirty, KeyOf(if e.CreateEvent? then e.row else s.bookmarks[e.id]), MarkTime(s, e));
    }
  }

  /** A create is refused exactly for an unknown owner or a taken id; otherwise it stores just the row it is given, and
      its week's marker with the creation time. */
  lemma CreateMeaning(s: Store, id: nat, b: Bookmark)
    ensures match Create(s, id, b)
      case Err(e) => e == IntegrityFailure && (b.user !in s.users || id in s.bookmarks)
      case Ok(after) =>
        && b.user in s.users && id !in s.bookmarks
        && Stored(s, after, id, b)
        && after.dirty == Mark(s.dirty, Key(b.user, WeekOf(b.createdAt)), b.createdAt)
  {
  }

  /** A delete is refused exactly when the user has no such bookmark; otherwise it removes that row alone. */
  lemma DeleteMeaning(s: Store, user: nat, id: nat, observed: Instant)
    ensures match Delete(s, user, id, observed)
      case Err(e) => e == NotFound && (id !in s.bookmarks || s.bookmarks[id].user != user)
      case Ok(after) =>
        && id in s.bookmarks && s.bookmarks[id].user == user
        && Removed(s, after, id)
        && after.dirty == Mark(s.dirty, Key(user, WeekOf(s.bookmarks[id].createdAt)), observed)
  {
  }

  /** Among the events of a run, a mutation is the transaction of that name, and a create waits for its own time. */
  lemma MutationEvents(m: Moment, e: Event)
    ensures match e
      case CreateEvent(id, b) => b.createdAt <= m.now && b.user in m.store.users && id !in m.store.bookmarks ==>
        Stored(m.store, Step(m, e).store, id, b)
      case PatchEvent(user, id, patch, observed) => PatchBookmark(m.store, user, id, patch, observed).Ok? ==>
        Step(m, e).store == PatchBookmark(m.store, user, id, patch, observed).value
      case DeleteEvent(user, id, _) => id in m.store.bookmarks && m.store.bookmarks[id].user == user ==>
        Removed(m.store, Step(m, e).store, id)
      case BaselineEvent(version, batch) => batch >= 1 && BaselineStep(m.store, version, batch, m.now).Ok? ==>
        Step(m, e).store == BaselineStep(m.store, version, batch, m.now).value
      case Register(user) => Step(m, e).store == m.store.(users := m.store.users + {user})
      case Tick(now) => Step(m, e) == m.(now := if now > m.now then now else m.now)
      case _ => Step(m, e).store.bookmarks == m.store.bookmarks && Step(m, e).store.users == m.store.users
  {
    hide Calculate, PersistPage, Candidates, PersistDeveloped;
  }

  /** The failure transition is refused exactly for a missing, foreign or active baseline, and changes the status
      alone. */
  lemma FailMeaning(m: Moment, version: nat)
    ensures var b, after := m.store.baseline, Step(m, FailEvent(version)).store;
      if b.None? || b.value.version != version || b.value.status == Active then after == m.store
      else after == m.store.(baseline := Some(b.value.(status := Failed)))
  {
  }

  /** On every run the steps do their work: with an active baseline a current marker's step ends its week's projection
      work and an overdue week's step finalises it; without one, or for another version, both change nothing. */
  lemma StepsAdvance(start: Moment, events: seq<Event>, version: nat, k: Key, g: nat)
    requires Initial(start)
    ensures var m := Run(start, events); var s := m.store;
      && (ActiveAt(s, version) && k in s.dirty ==>
            var after := Step(m, DirtyEvent(version, k, s.dirty[k].generation)).store;
            && !PendingFor(after.dirty, Consumer.Projection, k) && EffectiveRow(after, k).Some?
            && (WeekEnd(k.week) <= m.now ==> k !in after.working && EffectivePoint(after.points, k).Some?))
      && (ActiveAt(s, version) && k in s.working && WeekEnd(k.week) <= m.now
          && !PendingFor(s.dirty, Consumer.Projection, k) ==>
            var after := Step(m, OverdueEvent(version, k)).store;
            k !in after.working && EffectiveRow(after, k) == EffectiveRow(s, k))
      && (!ActiveAt(s, version) ==>
            Step(m, DirtyEvent(version, k, g)) == m && Step(m, OverdueEvent(version, k)) == m)
  {
    hide Chained, WeeklyStats, SoundRows, Refresh, Develop, EffectiveRow, Run;
    InitialHolds(start);
    RunKeeps(start, events);
    var m := Run(start, events);
    if ActiveAt(m.store, version) {
      if k in m.store.dirty {
        ProcessDirtyEffect(m, version, k, m.store.dirty[k].generation);
        if WeekEnd(k.week) <= m.now { ClosedByDirty(m, version, k); }
      }
      ProcessOverdueEffect(m, version, k);
    } else {
      Inactive(m, version, k, g);
    }
  }

  lemma Inactive(m: Moment, version: nat, k: Key, g: nat)
    requires !ActiveAt(m.store, version)
    ensures Step(m, DirtyEvent(version, k, g)) == m && Step(m, OverdueEvent(version, k)) == m
  {
    hide ProcessDirty, ProcessOverdue, WeekStart, WeekEnd;
    StepsRefuse(m.store, version, k, g, m.now);
  }

  /** Whatever state they find, the steps for a marker and for an overdue week are refused before any write: for a week
      that has not begun or not ended, without an active baseline, or for another version than its. A developing week
      is refused exactly if its row is of another version. */
  lemma StepsRefuse(s: Store, version: nat, k: Key, g: nat, now: Instant)
    ensures var dirty, overdue := ProcessDirty(s, version, k, g, now), ProcessOverdue(s, version, k, now);
      var b := s.baseline;
      && (WeekStart(k.week) > now ==> dirty == Refused(BadCandidate))
      && (!ActiveAt(s, version) ==>
            var e := if b.Some? && b.value.version != version then VersionMismatch else WrongTransition;
            (WeekStart(k.week) <= now ==> dirty == Refused(e)) && overdue == Refused(e))
      && (ActiveAt(s, version) && WeekStart(k.week) <= now < WeekEnd(k.week) ==>
            (dirty.Refused? <==> k in s.working && s.working[k].version != version)
            && (dirty.Refused? ==> dirty == Refused(VersionMismatch)))
      && (ActiveAt(s, version) ==>
            && (k !in s.working <==> overdue == Absent)
            && (k in s.working && WeekEnd(k.week) > now ==> overdue == Refused(BadCandidate))
            && (k in s.working && WeekEnd(k.week) <= now && s.working[k].version != version ==>
                  overdue == Refused(VersionMismatch)))
  {
    hide WeeklyStats, Develop;
  }

  /** An ended week with history is refused if its effective point, or its user's present row, is of another version. */
  lemma EndedWeekRefuses(s: Store, version: nat, k: Key, g: nat, now: Instant)
    requires ActiveAt(s, version) && WeekEnd(k.week) <= now && Chained(s.points)
    ensures var point, open := EffectivePoint(s.points, k), Key(k.user, WeekOf(now));
      (point.Some? && point.value.calculation.version != version)
      || (point.Some? && k.user in s.users && open in s.working && s.working[open].version != version)
      ==> ProcessDirty(s, version, k, g, now) == Refused(VersionMismatch)
  {
    hide WeeklyStats, EffectivePoint, Chained;
    RevisionsPositive(s.points, k);
    var open := Key(k.user, WeekOf(now));
    WindowsPartition(now, open.week);
    var point := EffectivePoint(s.points, k);
    if point.Some? && point.value.calculation.version == version {
      PersistsAfter(s.points, k, Calculate(s.bookmarks, version, k));
    }
  }

  /** Where there is a point of its version, persisting cannot fail. */
  lemma PersistsAfter(points: seq<Point>, k: Key, c: Calculation)
    requires EffectivePoint(points, k).Some? && EffectivePoint(points, k).value.calculation.version == c.version
    requires EffectivePoint(points, k).value.revision >= 1
    ensures PersistDeveloped(points, k, c).Ok?
  {
    hide EffectivePoint;
  }

  /** A candidate of the baseline is refused for a week that has not begun, or if what is stored for it is of another
      version; otherwise an ended week without history gets its first point, one with history is left alone, and a
      developing week gets its row. */
  lemma CandidateMeaning(t: Table, rows: Rows, version: nat, k: Key, now: Instant)
    ensures var r := PersistCandidate(t, rows, version, k, now);
      var ended, point := WeekEnd(k.week) <= now, EffectivePoint(rows.points, k);
      var foreign := if ended then point.Some? && point.value.calculation.version != version
        else k in rows.working && rows.working[k].version != version;
      var c := Calculate(t, version, k);
      r == if WeekStart(k.week) > now then Err(BadCandidate)
           else if foreign then Err(VersionMismatch)
           else if ended && point.Some? then Ok(rows)
           else if ended then Ok(rows.(points := rows.points + [Point(|rows.points| + 1, k, 1, None, c)]))
           else Ok(rows.(working := rows.working[k := c]))
  {
    hide WeeklyStats, EffectivePoint;
  }

  lemma ClosedByDirty(m: Moment, version: nat, k: Key)
    requires Invariant(m) && ActiveAt(m.store, version) && k in m.store.dirty && WeekEnd(k.week) <= m.now
    ensures var after := Step(m, DirtyEvent(version, k, m.store.dirty[k].generation)).store;
      k !in after.working && EffectivePoint(after.points, k).Some?
  {
    hide Chained, WeeklyStats, Develop, EffectiveRow, SoundRows, Projected, EffectivePoint, Mark;
    DevelopEffect(m.store, version, k, m.now);
    AcknowledgeEffect(m.store.dirty, Consumer.Projection, k, m.store.dirty[k].generation);
  }

  ghost predicate Applies<T>(field: Option<T>, before: T, after: T) {
    after == if field.Some? then field.value else before
  }

  /** A patch sets the fields it gives and keeps the others, the owner and the creation time; it writes nothing exactly
      when every given value is the current one, and otherwise moves the update time strictly forward, to the clock's
      if later. */
  lemma PatchMeaning(s: Store, user: nat, id: nat, p: Patch, observed: Instant)
    ensures match PatchBookmark(s, user, id, p, observed)
      case Err(e) => e == NotFound && (id !in s.bookmarks || s.bookmarks[id].user != user)
      case Ok(after) =>
        && id in s.bookmarks && s.bookmarks[id].user == user && id in after.bookmarks
        && var (b, b') := (s.bookmarks[id], after.bookmarks[id]);
        && Applies(p.url, b.url, b'.url) && Applies(p.title, b.title, b'.title)
        && Applies(p.description, b.description, b'.description) && Applies(p.tags, b.tags, b'.tags)
        && b'.user == b.user && b'.createdAt == b.createdAt
        && (forall i | i != id ::
          (i in after.bookmarks <==> i in s.bookmarks)
          && (i in s.bookmarks ==> after.bookmarks[i] == s.bookmarks[i]))
        && (after == s <==> Target(b, p) == b)
        && (after != s ==>
          b'.updatedAt > b.updatedAt && b'.updatedAt >= observed
          && (observed > b.updatedAt ==> b'.updatedAt == observed))
  {
    var r := PatchBookmark(s, user, id, p, observed);
    if r.Ok? && Target(s.bookmarks[id], p) != s.bookmarks[id] {
      assert r.value.bookmarks[id].updatedAt != s.bookmarks[id].updatedAt;
    }
  }

  // ---------------------------------------------------------------- baseline coverage and termination

  /** The baseline steps taken at the given times, with no mutation in between. */
  function Repeat(s: Store, version: nat, batch: nat, times: seq<Instant>): Store
    requires batch >= 1
    decreases |times|
  {
    if times == [] then s
      else Repeat(Committed(s, BaselineStep(s, version, batch, times[0])), version, batch, times[1..])
  }

  /** max(1, ceil(n / batch)) */
  function Steps(n: nat, batch: nat): nat
    requires batch >= 1
  {
    if n == 0 then 1 else (n + batch - 1) / batch
  }

  lemma Product(a: nat, b: nat, m: nat)
    requires a <= b
    ensures a * m <= b * m
  {
  }

  lemma Quotient(t: nat, m: nat, q: nat, r: nat)
    requires r < m && t == q * m + r
    ensures t / m == q
  {
    var a := t / m;
    assert t == a * m + t % m && (a + 1) * m == a * m + m && (q + 1) * m == q * m + m;
    if a < q { Product(a + 1, q, m); } else if a > q { Product(q + 1, a, m); }
  }

  lemma StepsRecursion(n: nat, batch: nat)
    requires batch >= 1
    ensures Steps(n, batch) == if n <= batch then 1 else 1 + Steps(n - batch, batch)
  {
    if n > batch {
      var q, r := (n - 1) / batch, (n - 1) % batch;
      assert n - 1 == q * batch + r && (q + 1) * batch == q * batch + batch;
      Quotient(n - 1 + batch, batch, q + 1, r);
    } else if n > 0 {
      Quotient(n + batch - 1, batch, 1, n - 1);
    }
  }

  ghost predicate InProgress(s: Store, version: nat) {
    StartOrResume(s.baseline, version).Ok? && StartOrResume(s.baseline, version).value.status != Active
  }

  function Left(s: Store): seq<Key> {
    Candidates(s.bookmarks, if s.baseline.Some? then s.baseline.value.checkpoint else None)
  }

  ghost predicate IsActive(s: Store) { s.baseline.Some? && s.baseline.value.status == Active }

  lemma CandidatesAre(t: Table, checkpoint: Option<Key>)
    ensures TotalOrder(KeyLe) && Candidates(t, checkpoint) == Sort(Remaining(t, checkpoint), KeyLe)
    ensures forall k :: k in Candidates(t, checkpoint) <==> k in Remaining(t, checkpoint)
    ensures Ascending(Candidates(t, checkpoint), KeyLe)
  {
    hide Remaining;
    KeyOrder();
  }

  /** The candidates are the (user, week) pairs that have a bookmark and come after the checkpoint, each once, by user
      and then by week. */
  lemma CandidatesMean(t: Table, checkpoint: Option<Key>)
    ensures var list := Candidates(t, checkpoint);
      && (forall k :: k in list <==>
            && (exists id :: id in t && t[id].user == k.user && WeekStart(k.week) <= t[id].createdAt < WeekEnd(k.week))
            && (checkpoint.Some? ==> Later(checkpoint.value, k)))
      && (forall i, j | 0 <= i < j < |list| :: Later(list[i], list[j]))
  {
    hide WeekStart, WeekEnd, Candidates, Remaining, KeyOf, KeyLe, Later, TotalOrder, Ascending;
    var list := Candidates(t, checkpoint);
    CandidatesAre(t, checkpoint);
    forall k ensures k in list <==>
      && (exists id :: id in t && t[id].user == k.user && WeekStart(k.week) <= t[id].createdAt < WeekEnd(k.week))
      && (checkpoint.Some? ==> Later(checkpoint.value, k))
    {
      RemainingMeans(t, checkpoint, k);
    }
    AscendingKeys(list);
  }

  lemma AscendingKeys(list: seq<Key>)
    requires Ascending(list, KeyLe)
    ensures forall i, j | 0 <= i < j < |list| :: Later(list[i], list[j])
  {
  }

  lemma RemainingMeans(t: Table, checkpoint: Option<Key>, k: Key)
    ensures k in Remaining(t, checkpoint) <==>
      && (exists id :: id in t && t[id].user == k.user && WeekStart(k.week) <= t[id].createdAt < WeekEnd(k.week))
      && (checkpoint.Some? ==> Later(checkpoint.value, k))
  {
    hide WeekStart, WeekEnd, WeekOf;
    forall id | id in t
      ensures KeyOf(t[id]) == k <==> t[id].user == k.user && WeekStart(k.week) <= t[id].createdAt < WeekEnd(k.week)
    {
      WindowsPartition(t[id].createdAt, k.week);
    }
  }

  /** A later week of the same user, or a later user. */
  predicate Later(a: Key, b: Key) { a.user < b.user || (a.user == b.user && a.week < b.week) }

  /** Past one of the keys that remain, the larger ones remain. */
  lemma RemainingPast(t: Table, checkpoint: Option<Key>, last: Key, k: Key)
    requires last in Remaining(t, checkpoint)
    ensures k in Remaining(t, Some(last)) <==> k in Remaining(t, checkpoint) && KeyLe(last, k) && k != last
  {
    hide KeyOf;
  }

  /** After a page of `batch`, what remains is the rest of the same list. */
  lemma LeftAfterPage(t: Table, checkpoint: Option<Key>, batch: nat)
    requires batch >= 1 && |Candidates(t, checkpoint)| > batch
    ensures var left := Candidates(t, checkpoint); Candidates(t, Some(left[batch - 1])) == left[batch..]
  {
    hide Candidates, Remaining, Sort, KeyLe, TotalOrder, Ascending;
    var left := Candidates(t, checkpoint);
    var last := left[batch - 1];
    CandidatesAre(t, checkpoint);
    CandidatesAre(t, Some(last));
    assert last in left;
    forall k ensures k in Remaining(t, Some(last)) <==> k in Remaining(t, checkpoint) && KeyLe(last, k) && k != last {
      RemainingPast(t, checkpoint, last, k);
    }
    SortBeyond(Remaining(t, checkpoint), Remaining(t, Some(last)), KeyLe, batch - 1);
  }

  /** One step materialises the first `batch` of the keys left, and leaves exactly the others. */
  lemma BaselinePage(m: Moment, version: nat, batch: nat)
    requires Invariant(m) && batch >= 1 && InProgress(m.store, version)
    ensures var r := BaselineStep(m.store, version, batch, m.now); var left := Left(m.store);
      && r.Ok? && r.value.bookmarks == m.store.bookmarks
      && (|left| <= batch ==> IsActive(r.value) && r.value.baseline.value.version == version)
      && (|left| > batch ==> InProgress(r.value, version) && !IsActive(r.value) && Left(r.value) == left[batch..])
      && (forall k :: EffectiveRow(r.value, k) ==
           if k in First(left, batch) then Some(Calculate(m.store.bookmarks, version, k)) else EffectiveRow(m.store, k))
  {
    hide Chained, WeeklyStats, SoundSources, SoundRows, PersistPage, EffectiveRow, Candidates;
    BaselineEffect(m, version, batch);
    var started := StartOrResume(m.store.baseline, version).value;
    BaselineRows(m, started, batch);
    if |Left(m.store)| > batch {
      LeftAfterPage(m.store.bookmarks, started.checkpoint, batch);
    }
  }

  lemma BaselineRows(m: Moment, started: Baseline, batch: nat)
    requires Invariant(m) && batch >= 1
    requires StartOrResume(m.store.baseline, started.version) == Ok(started) && started.status != Active
    ensures var r := BaselineStep(m.store, started.version, batch, m.now);
      && r.Ok?
      && forall k :: EffectiveRow(r.value, k) ==
           if k in First(Left(m.store), batch) then Some(Calculate(m.store.bookmarks, started.version, k))
             else EffectiveRow(m.store, k)
  {
    hide Chained, WeeklyStats, SoundSources, SoundRows, Candidates, PersistPage;
    var s := m.store;
    var candidates := Candidates(s.bookmarks, started.checkpoint);
    var page := First(candidates, batch);
    assert page == candidates[..|page|];
    var charged := s.(baseline := Some(Advanced(started, candidates, batch)));
    ChargeGrows(s, started, batch, m.now);
    PageIsNew(s, m.now, started.checkpoint, page);
    UncoveredHasNoRow(s, m.now);
    PageEffect(charged, page, m.now);
  }

  ghost predicate Times(now: Instant, times: seq<Instant>)
    decreases |times|
  {
    times == [] || (now <= times[0] && Times(times[0], times[1..]))
  }

  /** On a fixed table the baseline is active after exactly max(1, ceil(n / batch)) committed steps, and stays so;
      by then every surviving key has its row. */
  lemma {:induction false} BaselineTerminates(m: Moment, version: nat, batch: nat, times: seq<Instant>)
    requires Invariant(m) && batch >= 1 && InProgress(m.store, version) && Times(m.now, times)
    ensures var done := Repeat(m.store, version, batch, times);
      && (IsActive(done) <==> |times| >= Steps(|Left(m.store)|, batch))
      && (IsActive(done) ==> forall k | k in Left(m.store) ::
        EffectiveRow(done, k) == Some(Calculate(m.store.bookmarks, version, k)))
      && forall k | k !in Left(m.store) :: EffectiveRow(done, k) == EffectiveRow(m.store, k)
    decreases |times|
  {
    hide Chained, WeeklyStats, BaselineStep, EffectiveRow, Left, Invariant;
    var left := Left(m.store);
    StepsRecursion(|left|, batch);
    if times != [] {
      var later := Moment(m.store, times[0]);
      assert later == Step(m, Tick(times[0]));
      StepKeeps(m, Tick(times[0]));
      BaselinePage(later, version, batch);
      BaselineEffect(later, version, batch);
      var next := Moment(BaselineStep(later.store, version, batch, later.now).value, later.now);
      if |left| > batch {
        BaselineTerminates(next, version, batch, times[1..]);
        assert left == left[..batch] + left[batch..];
        assert First(left, batch) == left[..batch];
        LeftDistinct(m.store);
      } else {
        ActiveRepeats(next.store, version, batch, times[1..]);
      }
    }
  }

  lemma LeftDistinct(s: Store)
    ensures Distinct(Left(s))
  {
    KeyOrder();
  }

  lemma {:induction false} ActiveRepeats(s: Store, version: nat, batch: nat, times: seq<Instant>)
    requires batch >= 1 && IsActive(s) && s.baseline.value.version == version
    ensures Repeat(s, version, batch, times) == s
    decreases |times|
  {
    if times != [] { ActiveRepeats(s, version, batch, times[1..]); }
  }
}
