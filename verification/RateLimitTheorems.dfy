/** The promises of the rate limiter, over every sequence of requests and clock readings. */
module RateLimitTheorems {
  import opened Calendar
  import opened RateLimit

  datatype Request = Request(key: string, at: real)

  function Run(p: Policy, requests: seq<Request>): Limiter
    requires ValidPolicy(p)
  {
    if requests == [] then Limiter([], map[], None, None) else
      var last := requests[|requests| - 1];
      Consume(p, Run(p, requests[..|requests| - 1]), last.key, last.at).0
  }

  /** The answer to a request made after the others. */
  function Answer(p: Policy, before: seq<Request>, r: Request): Decision
    requires ValidPolicy(p)
  {
    Consume(p, Run(p, before), r.key, r.at).1
  }

  lemma RunNext(p: Policy, before: seq<Request>, r: Request)
    requires ValidPolicy(p)
    ensures Run(p, before + [r]) == Consume(p, Run(p, before), r.key, r.at).0
  {
    assert (before + [r])[..|before|] == before;
  }

  // ---------------------------------------------------------------- every run

  lemma {:induction false} RunIsValid(p: Policy, requests: seq<Request>)
    requires ValidPolicy(p)
    ensures Valid(p, Run(p, requests))
  {
    hide Consume, Valid;
    if requests == [] {
      StartIsValid(p);
    } else {
      RunIsValid(p, requests[..|requests| - 1]);
      ConsumeKeeps(p, Run(p, requests[..|requests| - 1]), requests[|requests| - 1].key, requests[|requests| - 1].at);
    }
  }

  lemma StartIsValid(p: Policy)
    ensures Valid(p, Limiter([], map[], None, None))
  {
  }

  /** The clock the limiter remembers is the latest any request has shown. */
  lemma {:induction false} ObservedIsLatest(p: Policy, requests: seq<Request>)
    requires ValidPolicy(p)
    ensures match Run(p, requests).observedAt
      case None => requests == []
      case Some(at) => (exists q :: q in requests && q.at == at) && forall q | q in requests :: q.at <= at
  {
    hide Serve, Kept, Selected, RetryAfter;
    if requests != [] {
      var before, last := requests[..|requests| - 1], requests[|requests| - 1];
      assert requests == before + [last];
      ObservedIsLatest(p, before);
    }
  }

  // ---------------------------------------------------------------- refinement of the unbounded bucket

  /** The requests that were served: neither refused for capacity nor for the clock. */
  function Served(p: Policy, requests: seq<Request>): seq<Request>
    requires ValidPolicy(p)
  {
    if requests == [] then [] else
      var before, last := requests[..|requests| - 1], requests[|requests| - 1];
      var answer := Answer(p, before, last);
      Served(p, before) + (if answer.Allowed? || answer.Rejected? then [last] else [])
  }

  /** One bucket a key, never forgotten. */
  function Ideal(p: Policy, requests: seq<Request>): Entries
    requires ValidPolicy(p)
  {
    if requests == [] then map[] else
      var last := requests[|requests| - 1];
      Serve(p, Ideal(p, requests[..|requests| - 1]), last.key, last.at).0
  }

  ghost predicate Refines(p: Policy, t: Limiter, ideal: Entries)
    requires ValidPolicy(p)
  {
    match t.observedAt
    case None => t.entries == map[] && ideal == map[]
    case Some(at) => ValidEntries(p, ideal, at) && Same(p, t.entries, ideal, at)
  }

  lemma RefinesLater(p: Policy, t: Limiter, ideal: Entries, now: real)
    requires ValidPolicy(p) && Valid(p, t) && Refines(p, t, ideal) && (t.observedAt.Some? ==> t.observedAt.value <= now)
    ensures ValidEntries(p, t.entries, now) && ValidEntries(p, ideal, now)
    ensures ValidEntries(p, Kept(p, t.entries, now), now) && Same(p, Kept(p, t.entries, now), ideal, now)
  {
    hide SameAt;
    KeptSame(p, t.entries, now);
    forall k, at | at >= now ensures SameAt(p, Kept(p, t.entries, now), ideal, k, at) {
      assert SameAt(p, Kept(p, t.entries, now), t.entries, k, at);
      SameEverywhere(p, t, ideal, k, at);
      SameTwice(p, Kept(p, t.entries, now), t.entries, ideal, k, at);
    }
  }

  lemma SameEverywhere(p: Policy, t: Limiter, ideal: Entries, k: string, at: real)
    requires ValidPolicy(p) && Refines(p, t, ideal) && (t.observedAt.Some? ==> t.observedAt.value <= at)
    ensures SameAt(p, t.entries, ideal, k, at)
  {
  }

  lemma SameTwice(p: Policy, a: Entries, b: Entries, c: Entries, k: string, at: real)
    requires ValidPolicy(p) && SameAt(p, a, b, k, at) && SameAt(p, b, c, k, at)
    ensures SameAt(p, a, c, k, at)
  {
  }

  lemma ConsumeRefines(p: Policy, t: Limiter, ideal: Entries, key: string, now: real)
    requires ValidPolicy(p) && Valid(p, t) && Refines(p, t, ideal)
    ensures var (after, answer) := Consume(p, t, key, now);
      if answer.Allowed? || answer.Rejected? then
        answer == Serve(p, ideal, key, now).1 && Refines(p, after, Serve(p, ideal, key, now).0)
      else Refines(p, after, ideal)
  {
    hide Serve, Same, ValidEntries, RetryAfter, Valid;
    if t.observedAt.None? || now >= t.observedAt.value {
      RefinesLater(p, t, ideal, now);
      var kept := Kept(p, t.entries, now);
      ServeSame(p, kept, ideal, key, now);
      ServeEntry(p, kept, key, now);
      ServeEntry(p, ideal, key, now);
    }
  }

  lemma {:induction false} RunRefines(p: Policy, requests: seq<Request>)
    requires ValidPolicy(p)
    ensures Refines(p, Run(p, requests), Ideal(p, Served(p, requests)))
  {
    hide Consume, Serve, Same, ValidEntries;
    if requests != [] {
      var before, last := requests[..|requests| - 1], requests[|requests| - 1];
      RunRefines(p, before);
      RunIsValid(p, before);
      ConsumeRefines(p, Run(p, before), Ideal(p, Served(p, before)), last.key, last.at);
      var served := Served(p, before);
      var answer := Answer(p, before, last);
      if answer.Allowed? || answer.Rejected? {
        assert Served(p, requests) == served + [last];
        assert (served + [last])[..|served|] == served;
      } else {
        assert Served(p, requests) == served + [];
        assert served + [] == served;
      }
    }
  }

  function RecentKeys(p: Policy, entries: Entries, now: real): set<string> {
    set k | k in entries && Recent(p, entries, k, now)
  }

  lemma KeptIsRecent(p: Policy, t: Limiter, ideal: Entries, now: real)
    requires ValidPolicy(p) && Valid(p, t) && Refines(p, t, ideal) && (t.observedAt.Some? ==> t.observedAt.value <= now)
    ensures Kept(p, t.entries, now).Keys == RecentKeys(p, ideal, now)
  {
    hide Level, EventDue;
    forall k ensures k in Kept(p, t.entries, now) <==> k in RecentKeys(p, ideal, now) {
      SameEverywhere(p, t, ideal, k, now);
    }
  }

  /** Every answer is that of the unbounded, never-evicting bucket fed with the served requests: the same verdict,
      delay and event; or a capacity refusal, exactly when the key was not seen within the idle time and max_keys
      others were; or a clock error, exactly when an earlier request showed a later time. */
  lemma BucketRefinesIdeal(p: Policy, before: seq<Request>, r: Request)
    requires ValidPolicy(p)
    ensures var answer := Answer(p, before, r); var ideal := Ideal(p, Served(p, before));
      && (answer.ClockError? <==> exists q :: q in before && q.at > r.at)
      && (!answer.ClockError? ==>
            (answer.Exhausted? <==> !Recent(p, ideal, r.key, r.at) && |RecentKeys(p, ideal, r.at)| >= p.maxKeys))
      && (answer.Allowed? || answer.Rejected? ==> answer == Serve(p, ideal, r.key, r.at).1)
  {
    hide Same, ValidEntries, RetryAfter, Opened;
    var t, ideal := Run(p, before), Ideal(p, Served(p, before));
    RunIsValid(p, before);
    RunRefines(p, before);
    ObservedIsLatest(p, before);
    ConsumeRefines(p, t, ideal, r.key, r.at);
    if t.observedAt.None? || r.at >= t.observedAt.value {
      KeptIsRecent(p, t, ideal, r.at);
      assert r.key in Kept(p, t.entries, r.at).Keys <==> r.key in RecentKeys(p, ideal, r.at);
    }
  }

  // ---------------------------------------------------------------- one request's effect on what a key would find

  /** What a key would find later depends only on its own allowed requests. */
  lemma ConsumeEffect(p: Policy, t: Limiter, key: string, now: real, k: string, at: real)
    requires ValidPolicy(p) && Valid(p, t) && at >= now && Consume(p, t, key, now).1 != ClockError
    ensures var (after, answer) := Consume(p, t, key, now);
      && after.observedAt == Some(now)
      && Level(p, after.entries, k, at)
         == (if k == key && answer.Allowed? then Min(Capacity(p), Level(p, t.entries, k, now) - 1.0 + Gain(p, now, at))
             else Level(p, t.entries, k, at))
      && EventDue(p, after.entries, k, at)
         == (if k == key && answer.Rejected? && answer.event then at - now >= p.window as real
             else EventDue(p, t.entries, k, at))
      && Recent(p, after.entries, k, at)
         == (if k == key && !answer.Exhausted? then at - now < p.ttl as real else Recent(p, t.entries, k, at))
  {
    hide Serve, RetryAfter, Level, EventDue, Recent, Gain, Valid, Selected, Min;
    assert ValidEntries(p, t.entries, now) by { EntriesOf(p, t, now); }
    var kept := Kept(p, t.entries, now);
    KeptSame(p, t.entries, now);
    assert SameAt(p, kept, t.entries, k, at) && SameAt(p, kept, t.entries, k, now);
    ServeEffect(p, kept, key, now, k, at);
    ServeEntry(p, kept, key, now);
    LevelLater(p, kept, k, now, at);
  }

  lemma ConsumeCases(p: Policy, t: Limiter, key: string, now: real)
    requires ValidPolicy(p)
    ensures var (after, answer) := Consume(p, t, key, now);
      && (answer == ClockError <==> t.observedAt.Some? && now < t.observedAt.value)
      && (answer == ClockError ==> after == t)
      && (answer != ClockError ==> after.observedAt == Some(now))
      && (answer.Exhausted? ==> answer.event == Due(t.capacityEvent, p.window, now))
      && after.capacityEvent == (if answer.Exhausted? && answer.event then Some(now) else t.capacityEvent)
  {
    hide Kept, Selected, RetryAfter, Opened;
  }

  lemma EntriesOf(p: Policy, t: Limiter, now: real)
    requires Valid(p, t) && (t.observedAt.Some? ==> t.observedAt.value <= now)
    ensures ValidEntries(p, t.entries, now)
  {
  }

  lemma LevelLater(p: Policy, entries: Entries, k: string, now: real, at: real)
    requires ValidPolicy(p) && ValidEntries(p, entries, now) && at >= now
    ensures Level(p, entries, k, at) == Min(Capacity(p), Level(p, entries, k, now) + Gain(p, now, at))
    ensures 0.0 <= Level(p, entries, k, now) <= Capacity(p)
  {
    hide Gain;
    GainGrows(p, now, now, at);
    if k in entries { GainGrows(p, entries[k].refilledAt, now, at); }
  }

  // ---------------------------------------------------------------- the rate bound

  /** How many of the key's requests with a clock reading in [s, t] were allowed. */
  function AllowedIn(p: Policy, requests: seq<Request>, k: string, s: real, t: real): nat
    requires ValidPolicy(p)
  {
    if requests == [] then 0 else
      var before, last := requests[..|requests| - 1], requests[|requests| - 1];
      AllowedIn(p, before, k, s, t)
      + (if last.key == k && s <= last.at <= t && Answer(p, before, last).Allowed? then 1 else 0)
  }

  /** The tokens spent since s and the level now never exceed a full bucket and what has accrued since s. */
  ghost predicate Paid(p: Policy, n: nat, run: Limiter, k: string, s: real, t: real)
    requires ValidPolicy(p)
  {
    match run.observedAt
    case None => n == 0
    case Some(at) =>
      && (at < s ==> n == 0)
      && (s <= at <= t ==> n as real + Level(p, run.entries, k, at) <= Capacity(p) + Gain(p, s, at))
      && n as real <= Capacity(p) + Gain(p, s, t)
  }

  lemma {:induction false} AllowedSoFar(p: Policy, requests: seq<Request>, k: string, s: real, t: real)
    requires ValidPolicy(p) && s <= t
    ensures Paid(p, AllowedIn(p, requests, k, s, t), Run(p, requests), k, s, t)
  {
    hide Consume, Paid;
    if requests == [] {
      NothingPaid(p, k, s, t);
    } else {
      var before, last := requests[..|requests| - 1], requests[|requests| - 1];
      AllowedSoFar(p, before, k, s, t);
      RunIsValid(p, before);
      PaidNext(p, AllowedIn(p, before, k, s, t), Run(p, before), last, k, s, t);
    }
  }

  lemma NothingPaid(p: Policy, k: string, s: real, t: real)
    requires ValidPolicy(p)
    ensures Paid(p, 0, Limiter([], map[], None, None), k, s, t)
  {
  }

  lemma PaidNext(p: Policy, n: nat, run: Limiter, r: Request, k: string, s: real, t: real)
    requires ValidPolicy(p) && s <= t && Valid(p, run) && Paid(p, n, run, k, s, t)
    ensures var (after, answer) := Consume(p, run, r.key, r.at);
      Paid(p, n + (if r.key == k && s <= r.at <= t && answer.Allowed? then 1 else 0), after, k, s, t)
  {
    hide Level, Gain, Valid, RetryAfter, Consume;
    GainGrows(p, s, s, t);
    ConsumeCases(p, run, r.key, r.at);
    if Consume(p, run, r.key, r.at).1 != ClockError {
      ConsumeEffect(p, run, r.key, r.at, k, r.at);
      EntriesOf(p, run, r.at);
      LevelLater(p, run.entries, k, r.at, r.at);
      AllowedHasToken(p, run, r.key, r.at);
      if run.observedAt.Some? {
        var at := run.observedAt.value;
        EntriesOf(p, run, at);
        LevelLater(p, run.entries, k, at, r.at);
        if s <= at { GainGrows(p, s, at, r.at); }
      }
      if s <= r.at {
        GainGrows(p, s, s, r.at);
        if r.at <= t { GainGrows(p, s, r.at, t); }
      }
      GainGrows(p, r.at, r.at, r.at);
    }
  }

  lemma AllowedHasToken(p: Policy, t: Limiter, key: string, now: real)
    requires ValidPolicy(p) && Valid(p, t)
    ensures var answer := Consume(p, t, key, now).1;
      && (answer.Allowed? ==> Level(p, t.entries, key, now) >= 1.0)
      && (answer.Rejected? ==> Level(p, t.entries, key, now) < 1.0
                               && answer == Rejected(RetryAfter(p, Level(p, t.entries, key, now)),
                                                     EventDue(p, t.entries, key, now)))
  {
    hide Level, Gain, Valid, RetryAfter, Serve, Selected, EventDue;
    if Consume(p, t, key, now).1 != ClockError {
      EntriesOf(p, t, now);
      KeptSame(p, t.entries, now);
      ServeEntry(p, Kept(p, t.entries, now), key, now);
      assert SameAt(p, Kept(p, t.entries, now), t.entries, key, now);
    }
  }

  /** In any interval a key is allowed at most its capacity and what accrues over the interval, across evictions. */
  lemma RateBound(p: Policy, requests: seq<Request>, k: string, s: real, t: real)
    requires ValidPolicy(p) && s <= t
    ensures var n := AllowedIn(p, requests, k, s, t) as real;
      n <= p.capacity as real + (t - s) * (p.capacity as real / p.window as real)
  {
    hide AllowedIn, Run, Level;
    AllowedSoFar(p, requests, k, s, t);
  }

  // ---------------------------------------------------------------- what is allowed, exactly

  /** One more request takes a token from its key's level if it is allowed, and changes no level otherwise. */
  lemma LevelNext(p: Policy, before: seq<Request>, last: Request, k: string, at: real)
    requires ValidPolicy(p) && last.at <= at && forall q | q in before :: q.at <= at
    ensures var level, taken := Level(p, Run(p, before + [last]).entries, k, at),
      last.key == k && Answer(p, before, last).Allowed?;
      && (taken ==>
            && (forall q | q in before :: q.at <= last.at)
            && level == Min(Capacity(p), Level(p, Run(p, before).entries, k, last.at) - 1.0 + Gain(p, last.at, at)))
      && (!taken ==> level == Level(p, Run(p, before).entries, k, at))
  {
    hide Consume, Level, Gain, Valid, Min;
    RunNext(p, before, last);
    RunIsValid(p, before);
    ObservedIsLatest(p, before);
    if Answer(p, before, last) == ClockError {
      ClockChangesNothing(p, before, last);
    } else {
      ObservedAfter(p, before, last);
      ConsumeEffect(p, Run(p, before), last.key, last.at, k, at);
    }
  }

  lemma AllowedNext(p: Policy, before: seq<Request>, last: Request, k: string, s: real, at: real)
    requires ValidPolicy(p)
    ensures AllowedIn(p, before + [last], k, s, at) == AllowedIn(p, before, k, s, at)
      + (if last.key == k && s <= last.at <= at && Answer(p, before, last).Allowed? then 1 else 0)
  {
    hide Answer;
    assert (before + [last])[..|before|] == before;
  }

  /** From any time on, the level and the tokens taken since are within a full bucket and what has accrued. */
  lemma {:induction false} LevelBound(p: Policy, requests: seq<Request>, k: string, s: real, at: real)
    requires ValidPolicy(p) && s <= at && forall q | q in requests :: q.at <= at
    ensures AllowedIn(p, requests, k, s, at) as real + Level(p, Run(p, requests).entries, k, at)
      <= Capacity(p) + Gain(p, s, at)
  {
    hide Answer, Run, Level, Gain, AllowedIn, Capacity;
    GainGrows(p, s, s, at);
    if requests == [] {
      NothingTaken(p, k, at, s);
    } else {
      var before, last := requests[..|requests| - 1], requests[|requests| - 1];
      assert requests == before + [last];
      LevelNext(p, before, last, k, at);
      AllowedNext(p, before, last, k, s, at);
      if last.key == k && Answer(p, before, last).Allowed? {
        if s <= last.at {
          LevelBound(p, before, k, s, last.at);
          AllowedUntil(p, before, k, s, last.at, at);
          GainGrows(p, s, last.at, at);
        } else {
          AllowedBefore(p, before, k, s, at);
        }
      } else {
        LevelBound(p, before, k, s, at);
      }
    }
  }

  lemma NothingTaken(p: Policy, k: string, at: real, s: real)
    requires ValidPolicy(p)
    ensures Level(p, Run(p, []).entries, k, at) == Capacity(p) && AllowedIn(p, [], k, s, at) == 0
  {
  }

  /** Nothing is allowed after the last request. */
  lemma {:induction false} AllowedUntil(p: Policy, requests: seq<Request>, k: string, s: real, t: real, at: real)
    requires ValidPolicy(p) && t <= at && forall q | q in requests :: q.at <= t
    ensures AllowedIn(p, requests, k, s, at) == AllowedIn(p, requests, k, s, t)
  {
    hide Answer;
    if requests != [] {
      assert requests[|requests| - 1] in requests;
      AllowedUntil(p, requests[..|requests| - 1], k, s, t, at);
    }
  }

  lemma {:induction false} AllowedBefore(p: Policy, requests: seq<Request>, k: string, s: real, at: real)
    requires ValidPolicy(p) && forall q | q in requests :: q.at < s
    ensures AllowedIn(p, requests, k, s, at) == 0
  {
    hide Answer;
    if requests != [] {
      assert requests[|requests| - 1] in requests;
      AllowedBefore(p, requests[..|requests| - 1], k, s, at);
    }
  }

  /** The bound is reached from the last time the bucket was full. */
  lemma {:induction false} LevelReached(p: Policy, requests: seq<Request>, k: string, at: real) returns (s: real)
    requires ValidPolicy(p) && forall q | q in requests :: q.at <= at
    ensures s <= at
    ensures AllowedIn(p, requests, k, s, at) as real + Level(p, Run(p, requests).entries, k, at)
      == Capacity(p) + Gain(p, s, at)
  {
    hide Answer, Run, Level, Gain, AllowedIn, Capacity;
    GainGrows(p, at, at, at);
    s := at;
    if requests == [] {
      NothingTaken(p, k, at, at);
    } else {
      var before, last := requests[..|requests| - 1], requests[|requests| - 1];
      assert requests == before + [last];
      LevelNext(p, before, last, k, at);
      if last.key != k || !Answer(p, before, last).Allowed? {
        s := LevelReached(p, before, k, at);
      } else if Level(p, Run(p, requests).entries, k, at) == Capacity(p) {
        LevelAtMost(p, before, k, last.at);
        AllowedBefore(p, before, k, at, at);
      } else {
        s := LevelReached(p, before, k, last.at);
        AllowedUntil(p, before, k, s, last.at, at);
        GainGrows(p, s, last.at, at);
      }
      AllowedNext(p, before, last, k, s, at);
    }
  }

  lemma LevelAtMost(p: Policy, requests: seq<Request>, k: string, at: real)
    requires ValidPolicy(p) && forall q | q in requests :: q.at <= at
    ensures Level(p, Run(p, requests).entries, k, at) <= Capacity(p)
    ensures Gain(p, at, at) == 0.0
  {
    hide Run, Rate;
  }

  lemma GainMeans(p: Policy, s: real, t: real)
    requires ValidPolicy(p)
    ensures Gain(p, s, t) == (t - s) * (p.capacity as real / p.window as real) && Capacity(p) == p.capacity as real
  {
  }

  /** A request that is served is allowed exactly when it leaves every interval up to it within the capacity and what
      accrues over the interval at the rate of one capacity a window. */
  lemma AllowedExactly(p: Policy, before: seq<Request>, r: Request)
    requires ValidPolicy(p) && (Answer(p, before, r).Allowed? || Answer(p, before, r).Rejected?)
    ensures Answer(p, before, r).Allowed? <==> forall s | s <= r.at ::
      AllowedIn(p, before, r.key, s, r.at) as real + 1.0
      <= p.capacity as real + (r.at - s) * (p.capacity as real / p.window as real)
  {
    hide Consume, Level, Valid, Gain, Rate, Capacity, AllowedIn, Run, RetryAfter;
    RunIsValid(p, before);
    ServedInTime(p, before, r);
    AllowedHasToken(p, Run(p, before), r.key, r.at);
    var level := Level(p, Run(p, before).entries, r.key, r.at);
    forall s | s <= r.at
      ensures AllowedIn(p, before, r.key, s, r.at) as real + level
        <= p.capacity as real + (r.at - s) * (p.capacity as real / p.window as real)
    {
      LevelBound(p, before, r.key, s, r.at);
      GainMeans(p, s, r.at);
    }
    var s := LevelReached(p, before, r.key, r.at);
    GainMeans(p, s, r.at);
  }

  lemma ServedInTime(p: Policy, before: seq<Request>, r: Request)
    requires ValidPolicy(p) && Answer(p, before, r) != ClockError
    ensures forall q | q in before :: q.at <= r.at
  {
    hide Consume;
    ConsumeCases(p, Run(p, before), r.key, r.at);
    ObservedIsLatest(p, before);
  }

  /** In particular the first `capacity` requests of a key that are served are allowed. */
  lemma FirstAreAllowed(p: Policy, before: seq<Request>, r: Request)
    requires ValidPolicy(p) && (Answer(p, before, r).Allowed? || Answer(p, before, r).Rejected?)
    requires forall s | s <= r.at :: AllowedIn(p, before, r.key, s, r.at) < p.capacity
    ensures Answer(p, before, r).Allowed?
  {
    hide Answer, AllowedIn;
    AllowedExactly(p, before, r);
    forall s | s <= r.at
      ensures AllowedIn(p, before, r.key, s, r.at) as real + 1.0
        <= p.capacity as real + (r.at - s) * (p.capacity as real / p.window as real)
    {
      BelowCapacity(p, AllowedIn(p, before, r.key, s, r.at), r.at - s);
    }
  }

  lemma BelowCapacity(p: Policy, n: nat, span: real)
    requires ValidPolicy(p) && n < p.capacity && span >= 0.0
    ensures n as real + 1.0 <= p.capacity as real + span * (p.capacity as real / p.window as real)
  {
    var rate := p.capacity as real / p.window as real;
    assert rate > 0.0;
    Times(0.0, span, rate);
    assert (n + 1) as real <= p.capacity as real;
  }

  /** The keys with a served request less than the idle time ago. */
  function Seen(p: Policy, before: seq<Request>, at: real): set<string>
    requires ValidPolicy(p)
  {
    set q | q in Served(p, before) && at - q.at < p.ttl as real :: q.key
  }

  ghost predicate InOrder(requests: seq<Request>) {
    forall i, j | 0 <= i < j < |requests| :: requests[i].at <= requests[j].at
  }

  function LastOf(requests: seq<Request>, k: string): Option<real> {
    if requests == [] then None
    else if requests[|requests| - 1].key == k then Some(requests[|requests| - 1].at)
    else LastOf(requests[..|requests| - 1], k)
  }

  lemma ServeSees(p: Policy, entries: Entries, key: string, now: real)
    requires ValidPolicy(p)
    ensures var after := Serve(p, entries, key, now).0;
      && after.Keys == entries.Keys + {key} && after[key].lastSeen == now
      && forall k | k in entries && k != key :: after[k] == entries[k]
  {
    hide RetryAfter, Refilled;
  }

  /** A key's ideal bucket remembers its last served request. */
  lemma {:induction false} IdealRemembers(p: Policy, requests: seq<Request>, k: string)
    requires ValidPolicy(p)
    ensures var ideal := Ideal(p, requests);
      LastOf(requests, k) == if k in ideal then Some(ideal[k].lastSeen) else None
  {
    hide Serve;
    if requests != [] {
      var before, last := requests[..|requests| - 1], requests[|requests| - 1];
      IdealRemembers(p, before, k);
      ServeSees(p, Ideal(p, before), last.key, last.at);
    }
  }

  lemma {:induction false} LastIsLatest(requests: seq<Request>, k: string)
    requires InOrder(requests)
    ensures LastOf(requests, k).Some? ==> Request(k, LastOf(requests, k).value) in requests
    ensures forall q | q in requests && q.key == k :: LastOf(requests, k).Some? && q.at <= LastOf(requests, k).value
  {
    if requests != [] {
      var before, last := requests[..|requests| - 1], requests[|requests| - 1];
      assert requests == before + [last];
      LastIsLatest(before, k);
      forall q | q in before ensures q.at <= last.at {
        var i :| 0 <= i < |before| && before[i] == q;
        assert requests[i] == q;
      }
    }
  }

  /** Served requests come in order of their clock readings. */
  lemma {:induction false} ServedInOrder(p: Policy, requests: seq<Request>)
    requires ValidPolicy(p)
    ensures forall q | q in Served(p, requests) :: q in requests
    ensures InOrder(Served(p, requests))
  {
    hide Consume;
    if requests != [] {
      var before, last := requests[..|requests| - 1], requests[|requests| - 1];
      assert requests == before + [last];
      ServedInOrder(p, before);
      var served := Served(p, before);
      if Answer(p, before, last).Allowed? || Answer(p, before, last).Rejected? {
        ServedInTime(p, before, last);
        forall i | 0 <= i < |served| ensures served[i].at <= last.at { assert served[i] in served; }
        assert Served(p, requests) == served + [last];
      } else {
        assert Served(p, requests) == served;
      }
    }
  }

  /** A request is refused for capacity exactly when its key was not served within the idle time and at least max_keys
      others were; the delay it is told is the least whole number of seconds in which a token accrues. */
  lemma ExhaustedExactly(p: Policy, before: seq<Request>, r: Request)
    requires ValidPolicy(p)
    ensures var answer := Answer(p, before, r); var seen := Seen(p, before, r.at);
      && (answer.ClockError? <==> exists q :: q in before && q.at > r.at)
      && (answer.Exhausted? <==> !answer.ClockError? && r.key !in seen && |seen| >= p.maxKeys)
      && (answer.Exhausted? ==>
            var d := answer.retryAfter;
            1 <= d && d * p.capacity >= p.window && (d > 1 ==> (d - 1) * p.capacity < p.window))
  {
    hide Consume, Serve, RetryAfter;
    BucketRefinesIdeal(p, before, r);
    var ideal := Ideal(p, Served(p, before));
    ServedInOrder(p, before);
    forall k ensures k in RecentKeys(p, ideal, r.at) <==> k in Seen(p, before, r.at) {
      RecentIsSeen(p, Served(p, before), k, r.at);
    }
    assert RecentKeys(p, ideal, r.at) == Seen(p, before, r.at);
    assert Recent(p, ideal, r.key, r.at) <==> r.key in RecentKeys(p, ideal, r.at);
    if Answer(p, before, r).Exhausted? {
      ExhaustedDelay(p, before, r);
      FullDelay(p);
    }
  }

  lemma RecentIsSeen(p: Policy, served: seq<Request>, k: string, at: real)
    requires ValidPolicy(p) && InOrder(served)
    ensures Recent(p, Ideal(p, served), k, at) <==> exists q :: q in served && q.key == k && at - q.at < p.ttl as real
  {
    hide Ideal, LastOf;
    IdealRemembers(p, served, k);
    LastIsLatest(served, k);
  }

  lemma ExhaustedDelay(p: Policy, before: seq<Request>, r: Request)
    requires ValidPolicy(p) && Answer(p, before, r).Exhausted?
    ensures Answer(p, before, r).retryAfter == RetryAfter(p, 0.0)
  {
    hide RetryAfter, Kept, Selected, Opened;
  }

  lemma FullDelay(p: Policy)
    requires ValidPolicy(p)
    ensures var d := RetryAfter(p, 0.0);
      1 <= d && d * p.capacity >= p.window && (d > 1 ==> (d - 1) * p.capacity < p.window)
  {
    hide RetryAfter, Rate;
    var d := RetryAfter(p, 0.0);
    RetryBounds(p, 0.0, 0.0);
    RetryBounds(p, 0.0, d as real);
    RetryBounds(p, 0.0, d as real - 1.0);
    RateOfWindow(p, d);
    RateOfWindow(p, d - 1);
  }

  lemma RateOfWindow(p: Policy, seconds: int)
    requires ValidPolicy(p)
    ensures seconds as real * Rate(p) >= 1.0 <==> seconds * p.capacity >= p.window
  {
    var w, rate := p.window as real, Rate(p);
    assert w * rate == p.capacity as real;
    assert w * (seconds as real * rate) == seconds as real * p.capacity as real;
    assert (seconds * p.capacity) as real == seconds as real * p.capacity as real;
    if seconds as real * rate >= 1.0 {
      Times(1.0, seconds as real * rate, w);
    } else {
      LessTimes(seconds as real * rate, 1.0, w);
    }
  }

  // ---------------------------------------------------------------- rejection events

  /** When the key's last ordinary rejection event was emitted. */
  function LastEvent(p: Policy, requests: seq<Request>, k: string): Option<real>
    requires ValidPolicy(p)
  {
    if requests == [] then None else
      var before, last := requests[..|requests| - 1], requests[|requests| - 1];
      var answer := Answer(p, before, last);
      if last.key == k && answer.Rejected? && answer.event then Some(last.at) else LastEvent(p, before, k)
  }

  function LastCapacityEvent(p: Policy, requests: seq<Request>): Option<real>
    requires ValidPolicy(p)
  {
    if requests == [] then None else
      var before, last := requests[..|requests| - 1], requests[|requests| - 1];
      var answer := Answer(p, before, last);
      if answer.Exhausted? && answer.event then Some(last.at) else LastCapacityEvent(p, before)
  }

  lemma {:induction false} EventsRemembered(p: Policy, requests: seq<Request>, k: string, at: real)
    requires ValidPolicy(p)
    requires Run(p, requests).observedAt.Some? ==> Run(p, requests).observedAt.value <= at
    ensures EventDue(p, Run(p, requests).entries, k, at) == Due(LastEvent(p, requests, k), p.window, at)
    ensures Run(p, requests).capacityEvent == LastCapacityEvent(p, requests)
  {
    hide Valid;
    if requests != [] {
      var before, last := requests[..|requests| - 1], requests[|requests| - 1];
      ConsumeCases(p, Run(p, before), last.key, last.at);
      EventsRemembered(p, before, k, at);
      RunIsValid(p, before);
      hide Consume;
      if Answer(p, before, last) != ClockError { ConsumeEffect(p, Run(p, before), last.key, last.at, k, at); }
    }
  }

  /** A rejection is reported exactly when the key's last report is at least a window old, evicted since or not;
      and likewise capacity refusals, over all keys. */
  lemma EventsAreSpaced(p: Policy, before: seq<Request>, r: Request)
    requires ValidPolicy(p)
    ensures match Answer(p, before, r)
      case Rejected(_, event) =>
        event == (var last := LastEvent(p, before, r.key); last.None? || r.at - last.value >= p.window as real)
      case Exhausted(_, event) =>
        event == (var last := LastCapacityEvent(p, before); last.None? || r.at - last.value >= p.window as real)
      case _ => true
  {
    hide Valid, Consume, RetryAfter, EventDue;
    RunIsValid(p, before);
    ConsumeCases(p, Run(p, before), r.key, r.at);
    if Answer(p, before, r) != ClockError {
      EventsRemembered(p, before, r.key, r.at);
      AllowedHasToken(p, Run(p, before), r.key, r.at);
    }
  }

  // ---------------------------------------------------------------- retry delays

  /** None of the later requests on the key was allowed. */
  ghost predicate NoneAllowed(p: Policy, before: seq<Request>, later: seq<Request>, key: string)
    requires ValidPolicy(p)
  {
    forall i | 0 <= i < |later| && later[i].key == key :: !Answer(p, before + later[..i], later[i]).Allowed?
  }

  /** Until the key is allowed again, its level is what it was at the rejection plus what has accrued. */
  lemma {:induction false} LevelSinceRejection(
      p: Policy, before: seq<Request>, r: Request, later: seq<Request>, at: real)
    requires ValidPolicy(p) && Answer(p, before, r).Rejected? && NoneAllowed(p, before + [r], later, r.key)
    requires var run := Run(p, before + [r] + later); run.observedAt.Some? && run.observedAt.value <= at
    ensures var run := Run(p, before + [r] + later);
      && r.at <= run.observedAt.value
      && Level(p, run.entries, r.key, at)
         == Min(Capacity(p), Level(p, Run(p, before).entries, r.key, r.at) + Gain(p, r.at, at))
      && (at - r.at < p.ttl as real ==> Recent(p, run.entries, r.key, at))
  {
    hide Valid, Level, Gain, Recent, Consume, Min;
    if later == [] {
      assert before + [r] + later == before + [r];
      RunNext(p, before, r);
      RunIsValid(p, before);
      assert r.at == Run(p, before + [r]).observedAt.value by { ObservedAfter(p, before, r); }
      ConsumeEffect(p, Run(p, before), r.key, r.at, r.key, at);
      EntriesOf(p, Run(p, before), r.at) by { ObservedAfter(p, before, r); }
      LevelLater(p, Run(p, before).entries, r.key, r.at, at);
    } else {
      var most, last := later[..|later| - 1], later[|later| - 1];
      var run := before + [r] + most;
      assert before + [r] + later == run + [last];
      RunNext(p, run, last);
      RunIsValid(p, run);
      forall i | 0 <= i < |most| && most[i].key == r.key
        ensures !Answer(p, before + [r] + most[..i], most[i]).Allowed?
      {
        assert most[..i] == later[..i];
      }
      ObservedIsLatest(p, run);
      assert r in run;
      if Answer(p, run, last) == ClockError {
        assert Run(p, run + [last]) == Run(p, run) by { ClockChangesNothing(p, run, last); }
        LevelSinceRejection(p, before, r, most, at);
      } else {
        ObservedAfter(p, run, last);
        LevelSinceRejection(p, before, r, most, at);
        ConsumeEffect(p, Run(p, run), last.key, last.at, r.key, at);
        assert last.key == r.key ==> !Answer(p, run, last).Allowed? by { assert later[..|later| - 1] == most; }
      }
    }
  }

  lemma ObservedAfter(p: Policy, before: seq<Request>, r: Request)
    requires ValidPolicy(p) && Answer(p, before, r) != ClockError
    ensures Run(p, before + [r]).observedAt == Some(r.at)
    ensures Run(p, before).observedAt.Some? ==> Run(p, before).observedAt.value <= r.at
  {
    RunNext(p, before, r);
  }

  lemma ClockChangesNothing(p: Policy, before: seq<Request>, r: Request)
    requires ValidPolicy(p) && Answer(p, before, r) == ClockError
    ensures Run(p, before + [r]) == Run(p, before)
  {
    hide Consume;
    ConsumeCases(p, Run(p, before), r.key, r.at);
    RunNext(p, before, r);
  }

  lemma CeilBounds(x: real)
    ensures x <= Ceil(x) as real < x + 1.0
  {
  }

  lemma Cancel(x: real, rate: real)
    requires rate > 0.0
    ensures x / rate * rate == x
  {
  }

  lemma LessTimes(a: real, b: real, rate: real)
    requires a < b && rate > 0.0
    ensures a * rate < b * rate
  {
  }

  /** The delay is the least whole number of seconds, and at least one, after which a token has accrued. */
  lemma RetryBounds(p: Policy, level: real, seconds: real)
    requires ValidPolicy(p) && 0.0 <= level < 1.0 && seconds >= 0.0
    ensures var d := RetryAfter(p, level);
      && 1 <= d <= p.window
      && (seconds >= d as real ==> seconds * Rate(p) >= 1.0 - level)
      && (seconds <= d as real - 1.0 ==> seconds * Rate(p) < 1.0 - level)
  {
    hide Ceil, Rate;
    var q := (1.0 - level) / Rate(p);
    CeilBounds(q);
    BelowQuotient(1.0 - level, Rate(p), seconds);
    WaitFits(p, level);
  }

  lemma BelowQuotient(x: real, rate: real, seconds: real)
    requires rate > 0.0
    ensures seconds < x / rate <==> seconds * rate < x
  {
    Cancel(x, rate);
    if seconds >= x / rate { Times(x / rate, seconds, rate); } else { LessTimes(seconds, x / rate, rate); }
  }

  lemma WaitFits(p: Policy, level: real)
    requires ValidPolicy(p) && 0.0 <= level < 1.0
    ensures (1.0 - level) / Rate(p) <= p.window as real
  {
    BelowQuotient(1.0 - level, Rate(p), p.window as real);
  }

  /** What the delay says of the level found later. */
  lemma RetryLevel(p: Policy, level: real, since: real, at: real)
    requires ValidPolicy(p) && 0.0 <= level < 1.0 && since <= at
    ensures var d := RetryAfter(p, level); var found := Min(Capacity(p), level + Gain(p, since, at));
      && 1 <= d <= p.window
      && (at <= since + d as real - 1.0 ==> found < 1.0)
      && (at >= since + d as real ==> found >= 1.0)
  {
    hide RetryAfter, Rate;
    RetryBounds(p, level, at - since);
  }

  /** After a rejection with delay d, whatever other keys do and however often this one is refused meanwhile: the key
      is rejected up to d - 1 seconds later, and served from d seconds on; only once it has been idle for the whole
      idle time can it find its slot taken. */
  lemma RetryIsExact(p: Policy, before: seq<Request>, r: Request, later: seq<Request>, at: real)
    requires ValidPolicy(p) && Answer(p, before, r).Rejected? && NoneAllowed(p, before + [r], later, r.key)
    requires forall q | q in before + [r] + later :: q.at <= at
    ensures var d := Answer(p, before, r).retryAfter as real;
      var answer := Answer(p, before + [r] + later, Request(r.key, at));
      && 1.0 <= d <= p.window as real <= p.ttl as real
      && (at <= r.at + d - 1.0 ==> answer.Rejected?)
      && (at >= r.at + d ==> answer.Allowed? || answer.Exhausted?)
      && (answer.Exhausted? ==> at >= r.at + p.ttl as real)
  {
    hide Valid, Consume, Level, Recent, Gain, RetryAfter, Rate, NoneAllowed, Min;
    var all := before + [r] + later;
    assert r in all;
    RunIsValid(p, before);
    RunIsValid(p, all);
    ObservedIsLatest(p, all);
    LevelSinceRejection(p, before, r, later, at);
    RejectedThen(p, Run(p, before), r.key, r.at);
    RetryLevel(p, Level(p, Run(p, before).entries, r.key, r.at), r.at, at);
    ConsumeCases(p, Run(p, all), r.key, at);
    AllowedHasToken(p, Run(p, all), r.key, at);
    if Recent(p, Run(p, all).entries, r.key, at) { RecentIsServed(p, Run(p, all), r.key, at); }
  }

  /** From the delay on, the key is allowed exactly when it was seen within the idle time or a slot is free. */
  lemma RetryIsAllowedWhen(p: Policy, before: seq<Request>, r: Request, later: seq<Request>, at: real)
    requires ValidPolicy(p) && Answer(p, before, r).Rejected? && NoneAllowed(p, before + [r], later, r.key)
    requires forall q | q in before + [r] + later :: q.at <= at
    requires at >= r.at + Answer(p, before, r).retryAfter as real
    ensures var all := before + [r] + later; var ideal := Ideal(p, Served(p, all));
      Answer(p, all, Request(r.key, at)).Allowed? <==>
        Recent(p, ideal, r.key, at)
        || |RecentKeys(p, ideal, at)| < p.maxKeys
  {
    hide Answer, NoneAllowed, Ideal, Served, Recent, RecentKeys, Serve;
    RetryIsExact(p, before, r, later, at);
    BucketRefinesIdeal(p, before + [r] + later, Request(r.key, at));
  }

  lemma RejectedThen(p: Policy, t: Limiter, key: string, now: real)
    requires ValidPolicy(p) && Valid(p, t) && Consume(p, t, key, now).1.Rejected?
    ensures 0.0 <= Level(p, t.entries, key, now) < 1.0
    ensures Consume(p, t, key, now).1.retryAfter == RetryAfter(p, Level(p, t.entries, key, now))
  {
    hide Valid, Consume, Level, Gain, RetryAfter;
    ConsumeCases(p, t, key, now);
    AllowedHasToken(p, t, key, now);
    EntriesOf(p, t, now);
    LevelLater(p, t.entries, key, now, now);
  }

  lemma RecentIsServed(p: Policy, t: Limiter, key: string, now: real)
    requires ValidPolicy(p) && Valid(p, t) && Recent(p, t.entries, key, now)
    ensures !Consume(p, t, key, now).1.Exhausted?
  {
    hide RetryAfter, Selected, Opened;
  }

  // ---------------------------------------------------------------- when waiting is enough

  /** Whatever happens until then, the client that waits as told is allowed. */
  ghost predicate WaitingSuffices(p: Policy, before: seq<Request>, r: Request)
    requires ValidPolicy(p) && Answer(p, before, r).Rejected?
  {
    var due := r.at + Answer(p, before, r).retryAfter as real;
    forall later | NoneAllowed(p, before + [r], later, r.key)
      && (forall q | q in before + [r] + later :: q.at <= due) ::
      Answer(p, before + [r] + later, Request(r.key, due)).Allowed?
  }

  /** A key like no other: longer than the given one. */
  function Fresh(key: string, i: nat): (k: string)
    ensures |k| == |key| + i + 1
  {
    key + seq(i + 1, _ => 'x')
  }

  /** As many requests at one instant, each on a key of its own. */
  function Burst(key: string, n: nat, at: real): seq<Request> {
    if n == 0 then [] else Burst(key, n - 1, at) + [Request(Fresh(key, n - 1), at)]
  }

  function FreshKeys(key: string, n: nat): (keys: set<string>)
    ensures |keys| == n && forall k :: k in keys ==> |key| < |k| <= |key| + n
  {
    if n == 0 then {} else FreshKeys(key, n - 1) + {Fresh(key, n - 1)}
  }

  lemma {:induction false} BurstAvoids(key: string, n: nat, at: real)
    ensures forall q | q in Burst(key, n, at) :: q.key != key && q.at == at
  {
    if n > 0 { BurstAvoids(key, n - 1, at); }
  }

  /** One more fresh key while there is room for it. */
  lemma FreshIsServed(p: Policy, t: Limiter, key: string, at: real)
    requires ValidPolicy(p) && Valid(p, t) && (t.observedAt.Some? ==> t.observedAt.value <= at)
    requires key !in Kept(p, t.entries, at) && |Kept(p, t.entries, at)| < p.maxKeys
    ensures var after := Consume(p, t, key, at).0;
      after.observedAt == Some(at) && Kept(p, after.entries, at).Keys == Kept(p, t.entries, at).Keys + {key}
  {
    hide Serve, RetryAfter, Selected, Valid;
    EntriesOf(p, t, at);
    KeptSame(p, t.entries, at);
    ServeEntry(p, Kept(p, t.entries, at), key, at);
    hide ValidEntries, Same;
    var kept, after := Kept(p, t.entries, at), Consume(p, t, key, at).0.entries;
    assert after == Serve(p, kept, key, at).0;
    forall k | k in after ensures !Idle(p, after[k], at) {}
  }

  /** Once everything before is idle, a burst of up to max_keys fresh keys takes that many slots. */
  lemma {:induction false} BurstTakesSlots(p: Policy, before: seq<Request>, key: string, n: nat, at: real)
    requires ValidPolicy(p) && n <= p.maxKeys
    requires Run(p, before).observedAt.Some? && Run(p, before).observedAt.value + p.ttl as real <= at
    ensures var run := Run(p, before + Burst(key, n, at));
      run.observedAt.Some? && run.observedAt.value <= at && Kept(p, run.entries, at).Keys == FreshKeys(key, n)
  {
    hide Consume, Run, Valid, Idle, Fresh;
    if n == 0 {
      assert before + Burst(key, 0, at) == before;
      RunIsValid(p, before);
      AllIdle(p, Run(p, before), at);
    } else {
      var earlier := before + Burst(key, n - 1, at);
      var next := Request(Fresh(key, n - 1), at);
      BurstTakesSlots(p, before, key, n - 1, at);
      assert before + Burst(key, n, at) == earlier + [next];
      RunNext(p, earlier, next);
      RunIsValid(p, earlier);
      assert |Kept(p, Run(p, earlier).entries, at)| == |FreshKeys(key, n - 1)|;
      assert next.key !in Kept(p, Run(p, earlier).entries, at).Keys;
      FreshIsServed(p, Run(p, earlier), next.key, at);
    }
  }

  lemma AllIdle(p: Policy, t: Limiter, at: real)
    requires Valid(p, t) && t.observedAt.Some? && t.observedAt.value + p.ttl as real <= at
    ensures Kept(p, t.entries, at) == map[]
  {
    forall k | k in t.entries ensures Idle(p, t.entries[k], at) {}
  }

  lemma BurstExhausts(p: Policy, before: seq<Request>, key: string, at: real)
    requires ValidPolicy(p)
    requires Run(p, before).observedAt.Some? && Run(p, before).observedAt.value + p.ttl as real <= at
    ensures Answer(p, before + Burst(key, p.maxKeys, at), Request(key, at)).Exhausted?
  {
    hide Run, Serve, Selected, RetryAfter;
    BurstTakesSlots(p, before, key, p.maxKeys, at);
    var kept := Kept(p, Run(p, before + Burst(key, p.maxKeys, at)).entries, at);
    assert |kept| == |FreshKeys(key, p.maxKeys)| && key !in kept.Keys;
  }

  /** Waiting as told is enough, whatever others do, exactly when the delay is shorter than the idle time. */
  lemma WaitingSufficesExactly(p: Policy, before: seq<Request>, r: Request)
    requires ValidPolicy(p) && Answer(p, before, r).Rejected?
    ensures WaitingSuffices(p, before, r) <==> Answer(p, before, r).retryAfter < p.ttl
  {
    hide Answer, Run, Burst, NoneAllowed;
    var d := Answer(p, before, r).retryAfter;
    var due := r.at + d as real;
    if d < p.ttl {
      forall later | NoneAllowed(p, before + [r], later, r.key) && (forall q | q in before + [r] + later :: q.at <= due)
        ensures Answer(p, before + [r] + later, Request(r.key, due)).Allowed?
      {
        RetryIsExact(p, before, r, later, due);
      }
    } else {
      BurstDefeatsWaiting(p, before, r);
    }
  }

  lemma BurstDefeatsWaiting(p: Policy, before: seq<Request>, r: Request)
    requires ValidPolicy(p) && Answer(p, before, r).Rejected? && Answer(p, before, r).retryAfter >= p.ttl
    ensures var due := r.at + Answer(p, before, r).retryAfter as real; var later := Burst(r.key, p.maxKeys, due);
      && NoneAllowed(p, before + [r], later, r.key) && (forall q | q in before + [r] + later :: q.at <= due)
      && Answer(p, before + [r] + later, Request(r.key, due)).Exhausted?
  {
    hide Consume, Run, Burst;
    var due := r.at + Answer(p, before, r).retryAfter as real;
    BurstAvoids(r.key, p.maxKeys, due);
    ObservedAfter(p, before, r);
    ObservedIsLatest(p, before);
    BurstExhausts(p, before + [r], r.key, due);
  }

  /** With a one-token bucket whose idle time is no longer than its window, a client that waits exactly as told can lose
      its slot to another. */
  lemma WaitingCanLoseTheSlot()
    ensures var p := Policy(1, 10, 1, 10);
      var before := [Request("a", 0.0)];
      && Answer(p, before, Request("a", 0.0)) == Rejected(10, true)
      && Answer(p, before + [Request("a", 0.0), Request("b", 10.0)], Request("a", 10.0)).Exhausted?
  {
    var p := Policy(1, 10, 1, 10);
    var a, b := Request("a", 0.0), Request("b", 10.0);
    var none: seq<Request> := [];
    assert Rate(p) == 0.1;
    RunNext(p, none, a);
    assert none + [a] == [a];
    var first := Run(p, [a]);
    assert first.entries == map["a" := Entry(0.0, 0.0, 0.0, None)];
    RunNext(p, [a], a);
    assert RetryAfter(p, 0.0) == 10;
    var second := Run(p, [a] + [a]);
    assert second.entries == map["a" := Entry(0.0, 0.0, 0.0, Some(0.0))];
    RunNext(p, [a] + [a], b);
    assert Kept(p, second.entries, 10.0) == map[];
    var third := Run(p, [a] + [a] + [b]);
    assert third.entries == map["b" := Entry(0.0, 10.0, 10.0, None)];
    assert Kept(p, third.entries, 10.0) == third.entries;
    assert [a] + [a] + [b] == [a] + [a, b];
  }
}
