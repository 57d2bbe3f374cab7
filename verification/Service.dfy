/** The bookmark use cases: one transaction, then one notification, and only for what was committed. */
module Service {
  import opened Calendar
  import opened Statistics
  import opened Dirty
  import opened Projection
  import opened ProjectionProofs
  import opened Database
  import opened Snapshots

  /** The mutated week's marker has advanced, and awaits both consumers. */
  ghost predicate MarksFor(before: Store, after: Store, user: nat, k: Key, at: Instant) {
    && k.user == user && after.dirty == Mark(before.dirty, k, at)
    && PendingFor(after.dirty, Current, k) && PendingFor(after.dirty, Consumer.Projection, k)
  }

  /** A committed change of the bookmarks invalidates its owner's snapshot and leaves its week pending for both
      consumers; its hint is queued, or the need to reconcile is recorded. Anything else changes neither cache nor
      queue nor database. */
  ghost predicate Notified(
      before: Store, after: Store, user: nat, cache: Cache, cache': Cache, queue: seq<nat>, queue': seq<nat>,
        room: bool, required': bool)
  {
    if after.bookmarks == before.bookmarks then after == before && cache' == cache && queue' == queue
    else
      && cache' == Invalidated(cache, user) && Get(cache', user) == None
      && (if room then queue' == queue + [user] else queue' == queue && required')
      && exists k, at :: MarksFor(before, after, user, k, at)
  }

  lemma MutationNotifies(s: Store, e: Event, now: Instant, user: nat)
    requires ValidTable(s.dirty)
    requires (e.CreateEvent? && e.row.user == user) || ((e.PatchEvent? || e.DeleteEvent?) && e.user == user)
    ensures var after := StoreAfter(s, now, e);
      if after.bookmarks == s.bookmarks then after == s
      else exists k, at :: MarksFor(s, after, user, k, at)
  {
    MutationsMark(s, e, now);
    var after := StoreAfter(s, now, e);
    if after != s {
      var k := if e.CreateEvent? then KeyOf(e.row) else KeyOf(s.bookmarks[e.id]);
      MarkPends(s.dirty, k, MarkTime(s, e));
      assert MarksFor(s, after, user, k, MarkTime(s, e));
    }
  }

  class BookmarkService {
    const db: StatsDatabase
    const publisher: StatsInvalidationPublisher

    constructor (db: StatsDatabase, publisher: StatsInvalidationPublisher)
      ensures this.db == db && this.publisher == publisher
    {
      this.db, this.publisher := db, publisher;
    }

    method Create(id: nat, row: Bookmark, queueFails: bool) returns (error: Option<Error>)
      requires ValidTable(db.dirty) && ValidCache(publisher.store.Contents())
      modifies db, publisher, publisher.store
      ensures error == Failure(Projection.Create(old(db.State()), id, row))
      ensures error.Some? <==> old(row.user !in db.users || id in db.bookmarks)
      ensures if error.None? then Stored(old(db.State()), db.State(), id, row) else db.State() == old(db.State())
      ensures db.State() == Committed(old(db.State()), Projection.Create(old(db.State()), id, row))
      ensures Notified(old(db.State()), db.State(), row.user,
                       old(publisher.store.Contents()), publisher.store.Contents(),
                       old(publisher.queue), publisher.queue,
                       !queueFails && old(|publisher.queue|) < publisher.capacity, publisher.reconciliationRequired)
    {
      ghost var s := db.State();
      MutationNotifies(s, CreateEvent(id, row), row.createdAt, row.user);
      error := db.CreateBookmark(id, row);
      if error.Some? { return; }
      ghost var cache := publisher.store.Contents();
      var _ := publisher.Publish(row.user, queueFails);
      CacheEffect(cache, row.user, Stats(0, 0, [], []), 0, 0);
      assert id in db.bookmarks && id !in s.bookmarks;
    }

    method Patch(user: nat, id: nat, patch: Projection.Patch, observed: Instant, queueFails: bool)
      returns (error: Option<Error>)
      requires ValidTable(db.dirty) && ValidCache(publisher.store.Contents())
      modifies db, publisher, publisher.store
      ensures error == Failure(PatchBookmark(old(db.State()), user, id, patch, observed))
      ensures db.State() == Committed(old(db.State()), PatchBookmark(old(db.State()), user, id, patch, observed))
      ensures Notified(old(db.State()), db.State(), user,
                       old(publisher.store.Contents()), publisher.store.Contents(),
                       old(publisher.queue), publisher.queue,
                       !queueFails && old(|publisher.queue|) < publisher.capacity, publisher.reconciliationRequired)
    {
      ghost var s := db.State();
      MutationNotifies(s, PatchEvent(user, id, patch, observed), observed, user);
      var material := id in db.bookmarks && Target(db.bookmarks[id], patch) != db.bookmarks[id];
      error := db.UpdateBookmark(user, id, patch, observed);
      if error.Some? || !material { return; }
      assert db.bookmarks[id] != s.bookmarks[id];
      ghost var cache := publisher.store.Contents();
      var _ := publisher.Publish(user, queueFails);
      CacheEffect(cache, user, Stats(0, 0, [], []), 0, 0);
    }

    method Remove(user: nat, id: nat, observed: Instant, queueFails: bool) returns (error: Option<Error>)
      requires ValidTable(db.dirty) && ValidCache(publisher.store.Contents())
      modifies db, publisher, publisher.store
      ensures error == Failure(Delete(old(db.State()), user, id, observed))
      ensures error.Some? <==> old(id !in db.bookmarks || db.bookmarks[id].user != user)
      ensures if error.None? then Removed(old(db.State()), db.State(), id) else db.State() == old(db.State())
      ensures db.State() == Committed(old(db.State()), Delete(old(db.State()), user, id, observed))
      ensures Notified(old(db.State()), db.State(), user,
                       old(publisher.store.Contents()), publisher.store.Contents(),
                       old(publisher.queue), publisher.queue,
                       !queueFails && old(|publisher.queue|) < publisher.capacity, publisher.reconciliationRequired)
    {
      ghost var s := db.State();
      MutationNotifies(s, DeleteEvent(user, id, observed), observed, user);
      error := db.DeleteBookmark(user, id, observed);
      if error.Some? { return; }
      assert id in s.bookmarks && id !in db.bookmarks;
      ghost var cache := publisher.store.Contents();
      var _ := publisher.Publish(user, queueFails);
      CacheEffect(cache, user, Stats(0, 0, [], []), 0, 0);
    }
  }
}
