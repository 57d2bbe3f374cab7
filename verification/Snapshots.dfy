/** The process-local snapshot store with its invalidation epochs, and the publisher that feeds it. */
module Snapshots {
  import opened Calendar
  import opened Statistics

  /** One complete aggregate and the epoch it was built under. */
  datatype Record = Record(stats: Stats, generatedAt: Instant, epoch: nat)

  datatype Cache = Cache(records: map<nat, Record>, epochs: map<nat, nat>)

  function EpochOf(c: Cache, user: nat): nat { if user in c.epochs then c.epochs[user] else 0 }

  function Invalidated(c: Cache, user: nat): Cache { c.(epochs := c.epochs[user := EpochOf(c, user) + 1]) }

  /** Compare-and-set: the candidate is installed only if the user's epoch is the expected one. */
  function Published(c: Cache, user: nat, stats: Stats, at: Instant, expected: nat): (Cache, bool) {
    if EpochOf(c, user) != expected then (c, false)
    else (c.(records := c.records[user := Record(stats, at, expected)]), true)
  }

  function Get(c: Cache, user: nat): Option<Record> {
    if user !in c.records || c.records[user].epoch != EpochOf(c, user) then None else Some(c.records[user])
  }

  /** No record is from an epoch still to come. */
  ghost predicate ValidCache(c: Cache) { forall u | u in c.records :: c.records[u].epoch <= EpochOf(c, u) }

  /** An invalidation hides the user's record and no other's; a publication under the current epoch shows exactly it. */
  lemma CacheEffect(c: Cache, user: nat, stats: Stats, at: Instant, expected: nat)
    requires ValidCache(c)
    ensures ValidCache(Invalidated(c, user)) && Get(Invalidated(c, user), user) == None
    ensures forall u | u != user ::
      Get(Invalidated(c, user), u) == Get(c, u)
      && EpochOf(Invalidated(c, user), u) == EpochOf(c, u)
    ensures var (c', ok) := Published(c, user, stats, at, expected);
      && ValidCache(c') && (ok <==> EpochOf(c, user) == expected)
      && (ok ==> Get(c', user) == Some(Record(stats, at, expected)))
      && (!ok ==> c' == c)
      && (forall u :: EpochOf(c', u) == EpochOf(c, u)) && (forall u | u != user :: Get(c', u) == Get(c, u))
  {
  }

  class StatsSnapshotStore {
    var records: map<nat, Record>
    var epochs: map<nat, nat>

    function Contents(): Cache
      reads this
    {
      Cache(records, epochs)
    }

    constructor ()
      ensures Contents() == Cache(map[], map[])
    {
      records, epochs := map[], map[];
    }

    method Invalidate(user: nat) returns (epoch: nat)
      modifies this
      ensures Contents() == Invalidated(old(Contents()), user)
      ensures epoch == old(EpochOf(Contents(), user)) + 1 && epoch == EpochOf(Contents(), user)
    {
      epoch := if user in epochs then epochs[user] + 1 else 1;
      epochs := epochs[user := epoch];
    }

    method Epoch(user: nat) returns (epoch: nat)
      ensures epoch == EpochOf(Contents(), user)
    {
      epoch := if user in epochs then epochs[user] else 0;
    }

    method Publish(user: nat, stats: Stats, generatedAt: Instant, expected: nat) returns (installed: bool)
      modifies this
      ensures (Contents(), installed) == Published(old(Contents()), user, stats, generatedAt, expected)
    {
      var candidate := Record(stats, generatedAt, expected);
      var current := Epoch(user);
      if current != expected { return false; }
      records := records[user := candidate];
      installed := true;
    }

    method Lookup(user: nat) returns (record: Option<Record>)
      ensures record == Get(Contents(), user)
    {
      var current := Epoch(user);
      if user !in records || records[user].epoch != current { return None; }
      record := Some(records[user]);
    }
  }

  datatype PublishOutcome = Enqueued | QueueFull | Unavailable

  /** Wake-up hints; `troubles` counts every recorded overflow, failure and demand for reconciliation. */
  class StatsInvalidationPublisher {
    const store: StatsSnapshotStore
    const capacity: nat
    var queue: seq<nat>
    var reconciliationRequired: bool
    var troubles: nat

    constructor (store: StatsSnapshotStore, capacity: nat)
      requires capacity >= 1
      ensures this.store == store && this.capacity == capacity
      ensures queue == [] && !reconciliationRequired && troubles == 0
    {
      this.store, this.capacity := store, capacity;
      queue, reconciliationRequired, troubles := [], false, 0;
    }

    /** The invalidation always happens; the hint is queued, or its loss is recorded. A queue may also fail for a reason
        of its own. */
    method Publish(user: nat, queueFails: bool) returns (outcome: PublishOutcome)
      modifies this, store
      ensures store.Contents() == Invalidated(old(store.Contents()), user)
      ensures outcome == if queueFails then Unavailable else if old(|queue|) < capacity then Enqueued else QueueFull
      ensures queue == if outcome == Enqueued then old(queue) + [user] else old(queue)
      ensures outcome == Enqueued ==> reconciliationRequired == old(reconciliationRequired) && troubles == old(troubles)
      ensures outcome != Enqueued ==> reconciliationRequired && troubles == old(troubles) + 1
    {
      var _ := store.Invalidate(user);
      if queueFails {
        RequireFullReconciliation();
        return Unavailable;
      }
      if |queue| < capacity {
        queue := queue + [user];
        outcome := Enqueued;
      } else {
        RequireFullReconciliation();
        outcome := QueueFull;
      }
    }

    /** The oldest hints, at most `limit` of them, leave the queue in order. */
    method Drain(limit: nat) returns (drained: seq<nat>)
      requires 1 <= limit <= capacity
      modifies this`queue
      ensures drained + queue == old(queue)
      ensures |drained| == if old(|queue|) < limit then old(|queue|) else limit
    {
      drained := [];
      var taken := 0;
      while taken < limit && queue != []
        invariant taken == |drained| <= limit
        invariant drained + queue == old(queue)
      {
        drained := drained + [queue[0]];
        queue := queue[1..];
        taken := taken + 1;
      }
    }

    method RequireFullReconciliation()
      modifies this`reconciliationRequired, this`troubles
      ensures reconciliationRequired && troubles == old(troubles) + 1
    {
      reconciliationRequired, troubles := true, troubles + 1;
    }

    /** Cleared only if nothing was recorded since `expected` was read. */
    method AcknowledgeFullReconciliation(expected: nat) returns (acknowledged: bool)
      modifies this`reconciliationRequired
      ensures acknowledged == (troubles == expected)
      ensures reconciliationRequired == (old(reconciliationRequired) && !acknowledged)
    {
      if troubles != expected { return false; }
      reconciliationRequired := false;
      acknowledged := true;
    }
  }
}
