/** The bounded token bucket, and the unbounded one it stands for. Clock readings and token counts are reals. */
module RateLimit {
  import opened Orders
  import opened Calendar

  datatype Policy = Policy(capacity: nat, window: nat, maxKeys: nat, ttl: nat)

  /** What the constructor demands. */
  predicate ValidPolicy(p: Policy) { p.capacity >= 1 && p.window >= 1 && p.maxKeys >= 1 && p.ttl >= p.window }

  datatype Entry = Entry(tokens: real, refilledAt: real, lastSeen: real, lastEvent: Option<real>)

  type Entries = map<string, Entry>

  datatype Decision =
    | Allowed
    | Rejected(retryAfter: int, event: bool)
    | Exhausted(retryAfter: int, event: bool)
    | ClockError

  datatype Limiter = Limiter(order: seq<string>, entries: Entries, observedAt: Option<real>,
    capacityEvent: Option<real>)

  function Capacity(p: Policy): real { p.capacity as real }

  function Rate(p: Policy): (rate: real)
    requires ValidPolicy(p)
    ensures rate > 0.0 && p.window as real * rate == Capacity(p)
  {
    var w := p.window as real;
    assert w * (Capacity(p) / w) == Capacity(p);
    Capacity(p) / w
  }

  /** Tokens accrued between two instants. */
  function Gain(p: Policy, since: real, until: real): real
    requires ValidPolicy(p)
  {
    (until - since) * Rate(p)
  }

  function Min(a: real, b: real): real { if a <= b then a else b }

  function Max(a: int, b: int): int { if a >= b then a else b }

  function Ceil(x: real): int { -((-x).Floor) }

  function RetryAfter(p: Policy, tokens: real): int
    requires ValidPolicy(p)
  {
    Max(1, Ceil((1.0 - tokens) / Rate(p)))
  }

  predicate Due(last: Option<real>, window: nat, now: real) { last.None? || now - last.value >= window as real }

  predicate Idle(p: Policy, e: Entry, now: real) { now >= e.lastSeen && now - e.lastSeen >= p.ttl as real }

  function Refilled(p: Policy, e: Entry, now: real): Entry
    requires ValidPolicy(p)
  {
    if now <= e.refilledAt then e
    else e.(tokens := Min(Capacity(p), e.tokens + Gain(p, e.refilledAt, now)), refilledAt := now)
  }

  function Kept(p: Policy, entries: Entries, now: real): Entries {
    map k | k in entries && !Idle(p, entries[k], now) :: entries[k]
  }

  /** The key's entry once it has been refilled, or created full. */
  function Opened(p: Policy, entries: Entries, key: string, now: real): Entry
    requires ValidPolicy(p)
  {
    if key in entries then Refilled(p, entries[key], now).(lastSeen := now) else Entry(Capacity(p), now, now, None)
  }

  /** Take a token of the key's bucket, or reject. */
  function Serve(p: Policy, entries: Entries, key: string, now: real): (Entries, Decision)
    requires ValidPolicy(p)
  {
    var e := Opened(p, entries, key, now);
    if e.tokens >= 1.0 then (entries[key := e.(tokens := e.tokens - 1.0)], Allowed)
    else
      var due := Due(e.lastEvent, p.window, now);
      (entries[key := if due then e.(lastEvent := Some(now)) else e], Rejected(RetryAfter(p, e.tokens), due))
  }

  function Selected(order: seq<string>, keys: set<string>): seq<string> {
    if order == [] then [] else
      var last := order[|order| - 1];
      Selected(order[..|order| - 1], keys) + (if last in keys then [last] else [])
  }

  /** consume, on the limiter's whole state. */
  function Consume(p: Policy, t: Limiter, key: string, now: real): (Limiter, Decision)
    requires ValidPolicy(p)
  {
    if t.observedAt.Some? && now < t.observedAt.value then (t, ClockError) else
      var kept := Kept(p, t.entries, now);
      var order := Selected(t.order, kept.Keys);
      if key !in kept && |kept| >= p.maxKeys then
        var due := Due(t.capacityEvent, p.window, now);
        (Limiter(order, kept, Some(now), if due then Some(now) else t.capacityEvent),
          Exhausted(RetryAfter(p, 0.0), due))
      else
        var (entries, decision) := Serve(p, kept, key, now);
        (Limiter(Selected(order, kept.Keys - {key}) + [key], entries, Some(now), t.capacityEvent), decision)
  }

  // ---------------------------------------------------------------- shape of the state

  /** An ordered dictionary: its order lists its keys, each once. */
  ghost predicate Aligned(order: seq<string>, entries: Entries) {
    Distinct(order) && forall k :: k in order <==> k in entries
  }

  ghost predicate ValidEntry(p: Policy, e: Entry) {
    && 0.0 <= e.tokens <= Capacity(p) && e.refilledAt == e.lastSeen
    && (e.lastEvent.Some? ==> e.lastEvent.value <= e.lastSeen)
  }

  ghost predicate ValidEntries(p: Policy, entries: Entries, now: real) {
    forall k | k in entries :: ValidEntry(p, entries[k]) && entries[k].lastSeen <= now
  }

  ghost predicate Sorted(order: seq<string>, entries: Entries)
    requires forall k | k in order :: k in entries
  {
    forall i, j | 0 <= i < j < |order| :: entries[order[i]].lastSeen <= entries[order[j]].lastSeen
  }

  ghost predicate Valid(p: Policy, t: Limiter) {
    && Aligned(t.order, t.entries) && Sorted(t.order, t.entries) && |t.entries| <= p.maxKeys
    && match t.observedAt
       case None => t.entries == map[] && t.capacityEvent == None
       case Some(at) => ValidEntries(p, t.entries, at) && (t.capacityEvent.Some? ==> t.capacityEvent.value <= at)
  }

  lemma {:induction false} SelectedIs(order: seq<string>, keys: set<string>)
    requires Distinct(order)
    ensures var s := Selected(order, keys);
      Distinct(s) && (forall k :: k in s <==> k in order && k in keys)
  {
    if order != [] {
      SelectedIs(order[..|order| - 1], keys);
      assert order == order[..|order| - 1] + [order[|order| - 1]];
    }
  }

  ghost predicate NoLater(order: seq<string>, entries: Entries, last: string)
    requires (forall k | k in order :: k in entries) && last in entries
  {
    forall k | k in order :: entries[k].lastSeen <= entries[last].lastSeen
  }

  lemma SortedAppend(order: seq<string>, entries: Entries, last: string)
    requires (forall k | k in order :: k in entries) && last in entries && Sorted(order, entries)
    requires NoLater(order, entries, last)
    ensures Sorted(order + [last], entries)
  {
    forall i | 0 <= i < |order| ensures entries[order[i]].lastSeen <= entries[last].lastSeen {
      assert order[i] in order;
    }
  }

  lemma SortedSplit(order: seq<string>, entries: Entries)
    requires order != [] && (forall k | k in order :: k in entries) && Sorted(order, entries)
    ensures var before, last := order[..|order| - 1], order[|order| - 1];
      && (forall k | k in before :: k in order) && last in order
      && Sorted(before, entries) && NoLater(before, entries, last)
  {
    var before, last := order[..|order| - 1], order[|order| - 1];
    forall k | k in before ensures k in order && entries[k].lastSeen <= entries[last].lastSeen {
      var i :| 0 <= i < |before| && before[i] == k;
      assert order[i] == k;
    }
  }

  lemma {:induction false} SelectedSorted(order: seq<string>, keys: set<string>, entries: Entries)
    requires Distinct(order) && (forall k | k in order :: k in entries) && Sorted(order, entries)
    ensures (forall k | k in Selected(order, keys) :: k in order) && Sorted(Selected(order, keys), entries)
  {
    SelectedIs(order, keys);
    if order != [] {
      hide Distinct, Sorted;
      var before, last := order[..|order| - 1], order[|order| - 1];
      SortedSplit(order, entries);
      assert Distinct(before) by { DistinctPrefix(order); }
      SelectedIs(before, keys);
      SelectedSorted(before, keys, entries);
      SortedAppend(Selected(before, keys), entries, last);
      assert Selected(before, keys) + [] == Selected(before, keys);
    } else {
      assert Selected(order, keys) == order;
    }
  }

  lemma DistinctPrefix(order: seq<string>)
    requires order != [] && Distinct(order)
    ensures Distinct(order[..|order| - 1])
  {
  }

  lemma SelectedNext(order: seq<string>, i: nat, keys: set<string>)
    requires i < |order|
    ensures Selected(order[..0], keys) == []
    ensures Selected(order[..i + 1], keys) == Selected(order[..i], keys) + (if order[i] in keys then [order[i]] else [])
  {
    assert order[..i + 1][..i] == order[..i];
  }

  lemma {:induction false} SelectedAll(order: seq<string>, keys: set<string>)
    requires forall k | k in order :: k in keys
    ensures Selected(order, keys) == order
  {
    if order != [] {
      assert order == order[..|order| - 1] + [order[|order| - 1]];
      SelectedAll(order[..|order| - 1], keys);
    }
  }

  lemma AlignedAll(order: seq<string>, entries: Entries, key: string)
    requires Aligned(order, entries) && key !in entries
    ensures Selected(order, entries.Keys - {key}) == order
  {
    SelectedAll(order, entries.Keys - {key});
  }

  lemma ShapeOf(p: Policy, t: Limiter)
    requires Valid(p, t)
    ensures Aligned(t.order, t.entries)
  {
  }

  // ---------------------------------------------------------------- the bucket in place

  class TokenBucket {
    const policy: Policy
    var order: seq<string>
    var entries: Entries
    var lastObservedAt: Option<real>
    var lastCapacityEventAt: Option<real>

    function Contents(): Limiter
      reads this
    {
      Limiter(order, entries, lastObservedAt, lastCapacityEventAt)
    }

    constructor (policy: Policy)
      requires ValidPolicy(policy)
      ensures this.policy == policy && Contents() == Limiter([], map[], None, None) && Valid(policy, Contents())
    {
      this.policy := policy;
      order, entries, lastObservedAt, lastCapacityEventAt := [], map[], None, None;
    }

    method EvictIdleEntries(now: real)
      requires Aligned(order, entries)
      modifies `order, `entries
      ensures entries == Kept(policy, old(entries), now)
      ensures order == Selected(old(order), entries.Keys) && Aligned(order, entries)
    {
      hide Idle, Selected;
      ghost var before := entries;
      ghost var kept := Kept(policy, entries, now);
      var items := order;
      order := [];
      assert Selected(items[..0], kept.Keys) == [] by { SelectedAll(items[..0], kept.Keys); }
      var i := 0;
      while i < |items|
        invariant i <= |items|
        invariant forall j | 0 <= j < i :: items[j] in entries <==> items[j] in kept
        invariant forall j | i <= j < |items| :: items[j] in entries
        invariant forall k | k in entries :: k in before && entries[k] == before[k]
        invariant order == Selected(items[..i], kept.Keys)
      {
        var key := items[i];
        SelectedNext(items, i, kept.Keys);
        if Idle(policy, entries[key], now) {
          entries := entries - {key};
        } else {
          order := order + [key];
        }
        i := i + 1;
      }
      assert items[..i] == items;
      SelectedIs(items, kept.Keys);
      forall k ensures k in entries <==> k in kept {
        if k in before { assert k in items; }
      }
    }

    /** consume */
    method TakeToken(key: string, now: real) returns (decision: Decision)
      requires ValidPolicy(policy) && Valid(policy, Contents())
      modifies this
      ensures (Contents(), decision) == Consume(policy, old(Contents()), key, now)
      ensures Valid(policy, Contents())
    {
      hide Selected, Aligned, Kept, Refilled, RetryAfter, Sorted, ValidEntries;
      assert Aligned(order, entries) by { ShapeOf(policy, Contents()); }
      ConsumeKeeps(policy, Contents(), key, now);
      hide Valid;
      if lastObservedAt.Some? && now < lastObservedAt.value { return ClockError; }
      lastObservedAt := Some(now);
      EvictIdleEntries(now);
      var entry: Entry;
      if key !in entries {
        if |entries| >= policy.maxKeys {
          var due := Due(lastCapacityEventAt, policy.window, now);
          if due { lastCapacityEventAt := Some(now); }
          return Exhausted(RetryAfter(policy, 0.0), due);
        }
        AlignedAll(order, entries, key);
        entry := Entry(Capacity(policy), now, now, None);
        order := order + [key];
      } else {
        entry := Refilled(policy, entries[key], now).(lastSeen := now);
        order := Selected(order, entries.Keys - {key}) + [key];
      }
      if entry.tokens >= 1.0 {
        entries := entries[key := entry.(tokens := entry.tokens - 1.0)];
        return Allowed;
      }
      var due := Due(entry.lastEvent, policy.window, now);
      if due { entry := entry.(lastEvent := Some(now)); }
      entries := entries[key := entry];
      decision := Rejected(RetryAfter(policy, entry.tokens), due);
    }
  }

  // ---------------------------------------------------------------- what can be observed of a key

  /** Tokens the key would find at a later time. */
  function Level(p: Policy, entries: Entries, k: string, at: real): real
    requires ValidPolicy(p)
  {
    if k !in entries then Capacity(p)
    else Min(Capacity(p), entries[k].tokens + Gain(p, entries[k].refilledAt, at))
  }

  predicate EventDue(p: Policy, entries: Entries, k: string, at: real) {
    k !in entries || Due(entries[k].lastEvent, p.window, at)
  }

  predicate Recent(p: Policy, entries: Entries, k: string, at: real) {
    k in entries && at - entries[k].lastSeen < p.ttl as real
  }

  ghost predicate SameAt(p: Policy, a: Entries, b: Entries, k: string, at: real)
    requires ValidPolicy(p)
  {
    && Level(p, a, k, at) == Level(p, b, k, at)
    && EventDue(p, a, k, at) == EventDue(p, b, k, at)
    && Recent(p, a, k, at) == Recent(p, b, k, at)
  }

  /** No request at or after `from` can tell the two apart. */
  ghost predicate Same(p: Policy, a: Entries, b: Entries, from: real)
    requires ValidPolicy(p)
  {
    forall k, at | at >= from :: SameAt(p, a, b, k, at)
  }

  lemma Times(a: real, b: real, rate: real)
    requires a <= b && rate > 0.0
    ensures a * rate <= b * rate
  {
  }

  lemma GainGrows(p: Policy, a: real, b: real, c: real)
    requires ValidPolicy(p) && a <= b <= c
    ensures 0.0 <= Gain(p, a, b) && 0.0 <= Gain(p, b, c) && Gain(p, a, c) == Gain(p, a, b) + Gain(p, b, c)
      && Gain(p, a, a) == 0.0
  {
    hide Rate;
    Times(0.0, b - a, Rate(p));
    Times(0.0, c - b, Rate(p));
  }

  lemma WindowFills(p: Policy, a: real, b: real)
    requires ValidPolicy(p) && b - a >= p.window as real
    ensures Gain(p, a, b) >= Capacity(p)
  {
    hide Rate;
    Times(p.window as real, b - a, Rate(p));
  }

  /** Idle entries are full again and owe no silence, so forgetting them cannot be observed. */
  lemma KeptSame(p: Policy, entries: Entries, now: real)
    requires ValidPolicy(p) && ValidEntries(p, entries, now)
    ensures Same(p, Kept(p, entries, now), entries, now) && ValidEntries(p, Kept(p, entries, now), now)
  {
    hide Gain;
    forall k, at | at >= now ensures SameAt(p, Kept(p, entries, now), entries, k, at) {
      if k in entries && Idle(p, entries[k], now) {
        WindowFills(p, entries[k].refilledAt, at);
      }
    }
  }

  lemma OpenedLevel(p: Policy, entries: Entries, key: string, now: real)
    requires ValidPolicy(p) && ValidEntries(p, entries, now)
    ensures var e := Opened(p, entries, key, now);
      && e.tokens == Level(p, entries, key, now) && ValidEntry(p, e) && e.lastSeen == now
      && (forall at :: Due(e.lastEvent, p.window, at) == EventDue(p, entries, key, at))
  {
    hide Gain;
    if key in entries {
      GainGrows(p, entries[key].refilledAt, now, now);
    }
  }

  /** The entry serving leaves behind. */
  lemma ServeEntry(p: Policy, entries: Entries, key: string, now: real)
    requires ValidPolicy(p) && ValidEntries(p, entries, now)
    ensures var (after, decision) := Serve(p, entries, key, now); var level := Level(p, entries, key, now);
      && ValidEntries(p, after, now) && after.Keys == entries.Keys + {key}
      && (forall k | k != key && k in entries :: after[k] == entries[k])
      && decision == (if level >= 1.0 then Allowed else Rejected(RetryAfter(p, level), EventDue(p, entries, key, now)))
      && after[key].tokens == level - (if decision.Allowed? then 1.0 else 0.0)
      && after[key].refilledAt == now && after[key].lastSeen == now
  {
    hide Gain, Level, RetryAfter, Refilled;
    OpenedLevel(p, entries, key, now);
  }

  lemma ServeEvents(p: Policy, entries: Entries, key: string, now: real, at: real)
    requires ValidPolicy(p) && ValidEntries(p, entries, now) && at >= now
    ensures var (after, decision) := Serve(p, entries, key, now);
      EventDue(p, after, key, at)
      == if decision.Rejected? && decision.event then at - now >= p.window as real else EventDue(p, entries, key, at)
  {
    hide Gain, Level, RetryAfter, Refilled;
    OpenedLevel(p, entries, key, now);
    var e := Opened(p, entries, key, now);
    assert Due(e.lastEvent, p.window, at) == EventDue(p, entries, key, at);
    assert Due(e.lastEvent, p.window, now) == EventDue(p, entries, key, now);
  }

  /** Serving takes a token from one key's level, or records one event, and leaves the other keys alone. */
  lemma ServeEffect(p: Policy, entries: Entries, key: string, now: real, k: string, at: real)
    requires ValidPolicy(p) && ValidEntries(p, entries, now) && at >= now
    ensures var (after, decision) := Serve(p, entries, key, now); var level := Level(p, entries, key, now);
      && Level(p, after, k, at)
         == (if k != key then Level(p, entries, k, at)
             else Min(Capacity(p), level - (if decision.Allowed? then 1.0 else 0.0) + Gain(p, now, at)))
      && EventDue(p, after, k, at)
         == (if k == key && decision.Rejected? && decision.event then at - now >= p.window as real
             else EventDue(p, entries, k, at))
      && Recent(p, after, k, at) == (if k == key then at - now < p.ttl as real else Recent(p, entries, k, at))
  {
    hide Gain, Serve, RetryAfter;
    ServeEntry(p, entries, key, now);
    ServeEvents(p, entries, key, now, at);
  }

  lemma ServeSame(p: Policy, a: Entries, b: Entries, key: string, now: real)
    requires ValidPolicy(p) && ValidEntries(p, a, now) && ValidEntries(p, b, now) && Same(p, a, b, now)
    ensures Serve(p, a, key, now).1 == Serve(p, b, key, now).1
    ensures Same(p, Serve(p, a, key, now).0, Serve(p, b, key, now).0, now)
  {
    hide Serve, Level, EventDue, Recent, Gain, RetryAfter, Min;
    ServeEntry(p, a, key, now);
    ServeEntry(p, b, key, now);
    assert SameAt(p, a, b, key, now);
    var a', b' := Serve(p, a, key, now).0, Serve(p, b, key, now).0;
    forall k, at | at >= now ensures SameAt(p, a', b', k, at) {
      assert SameAt(p, a, b, k, at);
      ServeEffect(p, a, key, now, k, at);
      ServeEffect(p, b, key, now, k, at);
    }
  }

  // ---------------------------------------------------------------- bounded, ordered state

  lemma EvictKeeps(p: Policy, order: seq<string>, entries: Entries, now: real)
    requires Aligned(order, entries) && Sorted(order, entries)
    ensures var kept := Kept(p, entries, now); var rest := Selected(order, kept.Keys);
      Aligned(rest, kept) && Sorted(rest, kept)
  {
    hide Idle, Selected;
    var kept := Kept(p, entries, now);
    SelectedIs(order, kept.Keys);
    SelectedSorted(order, kept.Keys, entries);
  }

  lemma ServeKeeps(p: Policy, order: seq<string>, entries: Entries, key: string, now: real)
    requires ValidPolicy(p) && Aligned(order, entries) && Sorted(order, entries) && ValidEntries(p, entries, now)
    ensures var after := Serve(p, entries, key, now).0; var moved := Selected(order, entries.Keys - {key}) + [key];
      Aligned(moved, after) && Sorted(moved, after)
  {
    hide Serve, Selected, ValidEntry;
    ServeEntry(p, entries, key, now);
    SelectedIs(order, entries.Keys - {key});
    SelectedSorted(order, entries.Keys - {key}, entries);
  }

  /** Entries stay ordered by last use and never outnumber max_keys. */
  lemma ConsumeKeeps(p: Policy, t: Limiter, key: string, now: real)
    requires ValidPolicy(p) && Valid(p, t)
    ensures Valid(p, Consume(p, t, key, now).0)
  {
    hide Serve, RetryAfter, Aligned, Sorted, Selected, ValidEntry, Kept;
    if t.observedAt.None? || now >= t.observedAt.value {
      var kept := Kept(p, t.entries, now);
      assert ValidEntries(p, t.entries, now);
      KeptSame(p, t.entries, now);
      KeptSize(p, t.entries, now);
      EvictKeeps(p, t.order, t.entries, now);
      if key in kept || |kept| < p.maxKeys { ServedKeeps(p, Selected(t.order, kept.Keys), kept, key, now); }
    }
  }

  lemma ServedKeeps(p: Policy, order: seq<string>, entries: Entries, key: string, now: real)
    requires ValidPolicy(p) && Aligned(order, entries) && Sorted(order, entries) && ValidEntries(p, entries, now)
    ensures var after := Serve(p, entries, key, now).0; var moved := Selected(order, entries.Keys - {key}) + [key];
      && Aligned(moved, after) && Sorted(moved, after) && ValidEntries(p, after, now)
      && |after| == |entries| + (if key in entries then 0 else 1)
  {
    hide Serve, Selected, ValidEntries, Aligned, Sorted;
    ServeKeeps(p, order, entries, key, now);
    ServeEntry(p, entries, key, now);
    ServedSize(p, entries, key, now);
  }

  lemma KeptSize(p: Policy, entries: Entries, now: real)
    ensures |Kept(p, entries, now)| <= |entries|
  {
    SubsetSize(Kept(p, entries, now).Keys, entries.Keys);
  }

  lemma ServedSize(p: Policy, entries: Entries, key: string, now: real)
    requires ValidPolicy(p) && ValidEntries(p, entries, now)
    ensures |Serve(p, entries, key, now).0| == |entries| + (if key in entries then 0 else 1)
  {
    hide Serve;
    ServeEntry(p, entries, key, now);
    assert entries.Keys + {key} == if key in entries then entries.Keys else entries.Keys + {key};
  }
}
