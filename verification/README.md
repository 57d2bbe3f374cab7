# A verified model of the bookmarks API's statistics, limits and paging

The service stores bookmarks per user and derives statistics from them in two ways. A *current* snapshot of each user's
all-time aggregates is cached in the process. A *weekly projection* is kept in the database: a replaceable working row for
a week that has not ended, and an append-only chain of revisions for one that has. Both are driven by durable dirty rows,
one per (user, week), which every bookmark mutation advances in its own transaction. Around this stand a bounded token
bucket and a cursor-paged, filtered listing. This project models those parts in Dafny and proves what they are for.

| file | what it models |
|---|---|
| `Orders.dfy` | ORDER BY: sorting a finite set under a total order |
| `Calendar.dfy` | UTC instants, calendar fields, the two timestamp texts, weekly windows |
| `Statistics.dfy` | bookmark rows, the aggregate statements on rows and on the joined tables, conservation |
| `Answers.dfy` | what a statistics answer is, in plain counts of rows, and that both readers give it |
| `Dirty.dfy` | dirty rows with a mark time, a generation and two consumers' completions, and the oldest first |
| `Projection.dfy` | mutations, baseline, dirty and overdue steps: each transaction as a function, and runs of them |
| `ProjectionProofs.dfy`, `ProjectionTheorems.dfy` | the invariant every transaction keeps, and what follows for every run |
| `Database.dfy`, `Service.dfy` | the same transactions as methods on mutable tables with rollback, and the use cases that notify |
| `Snapshots.dfy` | the snapshot store and the publisher, as classes |
| `CurrentStats.dfy`, `CurrentStatsProofs.dfy` | the current worker interleaved with request threads, step by step |
| `CurrentStatsHistory.dfy` | the same runs told by their actions: what was read and published, what a reconciliation rests on, an undisturbed cycle |
| `ProjectionPhase.dfy` | the worker's projection phase as methods, with a clock reading for each transaction |
| `Refresher.dfy` | its current phase, its cycles and its loop: draining the backlog, ending a reconciliation |
| `RateLimit.dfy`, `RateLimitTheorems.dfy` | the token bucket as a class, and its unbounded ideal |
| `Search.dfy`, `Paging.dfy` | LIKE patterns, date bounds, offset and keyset pages, walks under change |
| `Base64.dfy`, `Json.dfy`, `Cursor.dfy`, `TokenListing.dfy` | signed cursors, and the listing reached through them |

An instant is a number of microseconds since 0001-01-01, a Monday, so a week is a quotient. Every class method is proved
equal to a function of the old state, and the theorems are about that function.

What the model takes for granted:

- A committed transaction is atomic and transactions are serialisable; a refused one leaves the state as it was, and the
  methods of `StatsDatabase` are proved to.
- SHA-256 over (version, canonical payload) is injective, so comparing hashes is comparing versions and payloads. HMAC is any
  function into 32 bytes. The projection's version names its top-tags limit. Every transaction carries the version it was
  run with, so nothing assumes that a run has one version.
- Clock readings and token counts in the rate limiter are reals. The worker's clock does not go backwards; a bookmark is
  created at or before the worker's present time.
- User rows are never deleted and new user ids exceed the old ones.
- All consumption by the worker is serial (the cycle lock, `app/bookmarks/stats/refresher.py:307`). Generations restart at 1
  once a row is deleted, so two overlapping current consumers would not be safe. A refresh's acknowledgements, its publication
  and its commit are one step, because the first acknowledgement takes SQLite's write lock.
- Wake-up hints are drained in `Refresher.dfy`; in `CurrentStats.dfy` a cycle is given any set of hinted users and any set of
  current markers, which covers every queue content and every order of the observed page.

Where the code does not do all that is said of it:

- Stored timestamps use `strftime("%Y")`, which Python leaves to the platform: some zero-fill the year and some do not.
  `Calendar.ZERO_FILLS` stands for the platform and has no value, so every result covers both. A stored text round-trips
  exactly for the years written with four digits, which are all of them or those from 1000 on (`Calendar.StoredRoundTrip`).
  A date filter's bound is right for all such rows exactly when years are zero-filled, or its own year is at least 1000 or
  is 1, 10 or 100 (`Search.BoundFiltersByTime`). A week's two bounds together are right for those rows in more cases
  (`Search.WindowFiltersByTime`); a week from 1000 on is always one, so over such rows the weekly
  statements read exactly its own.
- A client that waits out its `retry_after` is served whatever others do if and only if the delay is shorter than the idle
  time (`RateLimitTheorems.WaitingSufficesExactly`); with a delay of the whole idle time its entry may be evicted and its
  slot taken. On a given history it is served exactly when it was seen within the idle time or a slot is free
  (`RateLimitTheorems.RetryIsAllowedWhen`).
- `encode` signs cursors issued before 1970-01-01T00:00:01Z, which `decode` refuses (`Cursor.DecodeOfIssued`); and `decode`
  accepts a version spelled `true` or `1.0`, which equal 1 in Python, though `encode` never writes them
  (`Cursor.DecodeAcceptsExactly`).
- `WeeklyWindow.from_datetime` overflows in the last five days of the year 9999 (`Calendar.WindowsPartition`). The projection
  model does not treat those days specially.

## Model

| member | source | states |
|---|---|---|
| `Calendar.IsoRoundTrip` | app/bookmarks/pagination.py:63-74 | every representable instant is read back from its cursor timestamp, to the microsecond |
| `Calendar.TextForms` | app/db/types.py:17-31 | both texts are the calendar fields laid out YYYY-MM-DDTHH:MM:SS.ffffffZ; the stored one differs at most in how the year is filled |
| `Calendar.NextDay` | app/bookmarks/stats/weekly.py:86-103 | a day later the fields are the next date of the Gregorian calendar, month lengths and leap years written out, at the same time of day |
| `Calendar.StoredRoundTrip` | app/db/types.py:23-45 | on every platform the stored text reads back as its instant if and only if the year is written with four digits |
| `Calendar.StoredOrder` | app/db/types.py:17-31 | for years written with four digits, comparing stored texts is comparing instants |
| `Calendar.ThreeDigitYear` | app/db/types.py:17-31 | every instant of 999 sorts before the later ones of 1000 exactly where years are zero-filled |
| `Calendar.WindowsPartition` | app/bookmarks/stats/weekly.py:97-103 | windows partition time; from_datetime, the week number and the SQL Monday expression agree on every instant, so a candidate never mismatches; from_datetime overflows exactly in the last five days |
| `Calendar.BoundsAreWindows` | app/bookmarks/stats/weekly.py:106-114 | from_bounds accepts exactly the week windows |
| `Statistics.SqlIsAggregate` | app/bookmarks/stats/raw_sql.py:15-45 | the three statements, totals, ranking and months, evaluated on the joined tables or the rows, give the aggregate of the rows alone: no dependence on tag ids, links or scan order; what that aggregate is, `Answers.AllTimeDescribes` and `Answers.WeeklyDescribes` say |
| `Answers.AllTimeDescribes` | app/bookmarks/stats/raw_sql.py:15-81 | the all-time answer is the number of the user's rows and of their tags, the first tags by count and then by name with their counts, and, for four-digit years, one entry YYYY-MM for each calendar month with its number of rows, in calendar order; and it is what the three statements return, however the tags are stored |
| `Answers.WeeklyDescribes` | app/bookmarks/stats/weekly.py:26-62 | the same for the user's rows created in the week |
| `Answers.MonthOfMeans` | app/bookmarks/stats/raw_sql.py:37-45 | the first seven characters of the stored text are year and month exactly where the year is stored with four digits |
| `Answers.RelationsExist` | app/bookmarks/repository.py:170-188 | every table has some valid storage of its tags, so what is said of all of them is never empty |
| `Statistics.TopTagsMeaning` | app/bookmarks/stats/weekly.py:38-51 | the top tags are the first k distinct tags by count descending, name ascending, each with its count |
| `Statistics.GroupsMeaning` | app/bookmarks/stats/weekly.py:53-63 | the month list gives every month the number of its rows, and zero to months it omits |
| `Statistics.TotalConserved` | app/bookmarks/stats/raw_sql.py:61-81 | the all-time total is the sum of the weekly totals and of the month counts |
| `Statistics.MonthConserved` | app/bookmarks/stats/raw_sql.py:37-45 | each month's all-time count is the sum of its weekly parts |
| `Statistics.TagsConserved` | app/bookmarks/stats/raw_sql.py:15-22 | a tag is among a user's tags exactly when it is among those of some week |
| `Dirty.MarkPends` | app/bookmarks/stats/dirty.py:201-225 | a mark advances the generation, leaves the key pending for both consumers and touches no other row |
| `Dirty.AcknowledgeEffect` | app/bookmarks/stats/dirty.py:289-331 | an acknowledgement counts exactly for the current generation; a row goes exactly when the other consumer had finished that generation; completions stay 0 or the generation |
| `ProjectionProofs.PersistEffect` | app/bookmarks/stats/projection_service.py:226-281 | persisting makes the calculation effective, only appends, keeps every chain, touches no other key |
| `ProjectionProofs.DevelopEffect` | app/bookmarks/stats/projection_service.py:114-123 | closing a week cannot fail from a sound state; its row becomes the live payload (`ProjectionTheorems.CalculateIsLive`), its working row goes, every other working row stays, and its user, if registered, then has a working row for the present week, the only one opened |
| `ProjectionProofs.ProcessDirtyEffect` | app/bookmarks/stats/projection_service.py:99-159 | applied exactly for the marker's current generation, otherwise stale with no effect; when applied, the key is up to date and no longer pending and the invariant holds |
| `ProjectionProofs.ProcessOverdueEffect` | app/bookmarks/stats/projection_service.py:161-205 | finalises exactly an ended week with a working row and nothing pending; what is effective does not change |
| `ProjectionProofs.PageEffect` | app/bookmarks/stats/projection_service.py:411-496 | a page of new keys gives exactly those keys their live rows (`ProjectionTheorems.CalculateIsLive`) |
| `ProjectionProofs.BaselineEffect` | app/bookmarks/stats/projection_service.py:355-397 | a step is refused exactly for a foreign version or after a failure, with the error for each; when committed it leaves the baseline running or active in its version and keeps the invariant |
| `ProjectionProofs.MutationsMark` | app/bookmarks/service.py:189-255 | a committed create, patch or delete changes one row of one key and marks that key in the same transaction; anything else changes nothing |
| `ProjectionProofs.AcknowledgeAllEffect` | app/bookmarks/stats/refresher.py:710-717 | the current consumer's acknowledgements never change what is pending for the projection |
| `ProjectionProofs.StepKeeps` | app/bookmarks/stats/projection_service.py:99-313 | every transaction, committed or refused, keeps the invariant, only appends points and leaves an active baseline active |
| `ProjectionTheorems.CalculateIsLive` | app/bookmarks/stats/projection_service.py:215-224 | a calculation carries its version, and its payload is the answer for the user's bookmarks created in the week |
| `ProjectionTheorems.ReachableIsUpToDate` | app/bookmarks/stats/projection_service.py:99-313 | on every run, a key with nothing pending shows, under the baseline's version, the answer for the bookmarks its user then has in the week, in plain counts and as the SQL returns it; or it has neither row nor bookmark; before activation, up to the checkpoint |
| `ProjectionTheorems.StepsAdvance` | app/bookmarks/stats/projection_service.py:99-205 | on every run, with an active baseline the step for a current marker ends its week's work and closes an ended week, and the step for an overdue week finalises it; without one, both change nothing |
| `ProjectionTheorems.StepsRefuse` | app/bookmarks/stats/projection_service.py:99-205 | from any state the steps are refused before any write: a week not begun or not ended, no active baseline, a row or baseline of another version, each with its error |
| `ProjectionTheorems.EndedWeekRefuses` | app/bookmarks/stats/projection_service.py:226-313 | an ended week with history is refused if its point, or its user's present row, is of another version |
| `ProjectionTheorems.CandidateMeaning` | app/bookmarks/stats/projection_service.py:411-496 | a candidate is refused for a week not begun or for a foreign version; an ended week gets its first point or is left alone, a developing week gets its row |
| `ProjectionTheorems.FailMeaning` | app/bookmarks/stats/projection_repository.py:538-565 | the failure transition changes the status alone, and is refused exactly for a missing, foreign or active baseline |
| `ProjectionTheorems.DevelopedIsClosed` | app/bookmarks/stats/projection_service.py:114-144 | points exist only for ended weeks, and never beside a working row |
| `ProjectionTheorems.OneOpenWeek` | app/bookmarks/stats/projection_service.py:283-313 | a working row of a week not ended is that of the present week |
| `ProjectionTheorems.HistoryIsChain` | app/bookmarks/stats/projection_repository.py:759-804 | a key's points, and only they, run through revisions 1 to n without a gap, each superseding its predecessor and differing from it; the last is effective; ids ascend |
| `ProjectionTheorems.HistoryGrows` | app/bookmarks/stats/projection_service.py:226-281 | every later history extends the earlier one; an active baseline stays active |
| `ProjectionTheorems.MutationPends` | app/bookmarks/service.py:189-233 | on every run, a committed mutation leaves its week pending for both consumers |
| `ProjectionTheorems.CreateMeaning` | app/bookmarks/service.py:99-133 | refused exactly for an unknown owner or a taken id; otherwise the table gains exactly the given row, field by field, and its week's marker |
| `ProjectionTheorems.DeleteMeaning` | app/bookmarks/service.py:235-255 | refused exactly when the user has no such bookmark; otherwise the table loses that row alone, and its week is marked |
| `ProjectionTheorems.MutationEvents` | app/bookmarks/service.py:99-255 | within a run each mutation and baseline step takes effect as its transaction does, registering adds one user, the clock never goes back, and nothing but mutations changes bookmarks |
| `ProjectionTheorems.RunGoesOn` | app/bookmarks/stats/refresher.py:483-508 | a run takes its transactions one after the other |
| `ProjectionTheorems.PatchMeaning` | app/bookmarks/policy.py:101-136 | a patch sets what it gives and keeps the rest, owner and creation time; it is immaterial exactly when nothing differs, and otherwise the update time moves strictly forward |
| `ProjectionProofs.PageIsNew` | app/bookmarks/stats/projection_repository.py:450-490 | a page holds the next keys in order, none covered before; its last is strictly beyond the checkpoint |
| `ProjectionTheorems.CandidatesMean` | app/bookmarks/stats/projection_repository.py:450-490 | the candidates are the (user, week) pairs that have a bookmark and come after the checkpoint, each once, by user and then by week |
| `ProjectionTheorems.LeftAfterPage` | app/bookmarks/stats/projection_repository.py:450-490 | the candidates after a page's checkpoint are exactly the rest of the list |
| `ProjectionTheorems.BaselinePage` | app/bookmarks/stats/projection_service.py:371-387 | one step materialises the first batch of the keys left, changes no other row and leaves exactly the others |
| `ProjectionTheorems.BaselineTerminates` | app/bookmarks/stats/projection_service.py:355-397 | on a fixed table the baseline is active after exactly max(1, ceil(n / batch)) steps, with every surviving key's live row |
| `Database.StatsDatabase.MarkDirty` | app/bookmarks/stats/dirty.py:201-225 | the upsert is the mark |
| `Database.StatsDatabase.AcknowledgeOne` | app/bookmarks/stats/dirty.py:289-331 | the guarded update and delete are the acknowledgement |
| `Database.StatsDatabase.AcknowledgeCurrent` | app/bookmarks/stats/refresher.py:710-717 | all acknowledgements, or none with the table restored |
| `Database.StatsDatabase.Observe` | app/bookmarks/stats/dirty.py:227-241 | as many rows as the limit allows, each once with its current generation, in ascending order of mark time, user and week; every row left off comes after all of the page |
| `Database.FirstMarkersAre` | app/bookmarks/stats/dirty.py:227-241 | those markers are the oldest rows in order, each once, with the generations then in the table |
| `Database.StatsDatabase.CreateBookmark` | app/bookmarks/service.py:99-133 | refused exactly for an unknown owner or a taken id, and then nothing changes; otherwise the table gains exactly the given row, field by field, together with its mark |
| `Database.StatsDatabase.UpdateBookmark` | app/bookmarks/service.py:189-233 | writing only the changed fields gives the patched row; an immaterial patch writes nothing |
| `Database.StatsDatabase.DeleteBookmark` | app/bookmarks/service.py:235-255 | refused exactly when the user has no such bookmark, and then nothing changes; otherwise exactly that row goes, together with its mark |
| `Database.StatsDatabase.Append` | app/bookmarks/stats/projection_repository.py:759-804 | a root, or a correction of the effective revision; anything else is refused without a write |
| `Database.StatsDatabase.Persist` | app/bookmarks/stats/projection_service.py:226-281 | a root, a changed correction, nothing, or a version error without a write |
| `Database.StatsDatabase.EnsureCurrentWorking` | app/bookmarks/stats/projection_service.py:283-313 | creates the present week's row exactly when the user exists and has none |
| `Database.StatsDatabase.ApplyDirty` | app/bookmarks/stats/projection_service.py:99-159 | the transaction's committed state and report; stale or failed, the old state is restored |
| `Database.StatsDatabase.ApplyOverdue` | app/bookmarks/stats/projection_service.py:161-205 | the transaction's committed state and report; deferred, absent or failed, nothing changes |
| `Database.StatsDatabase.ObserveOverdue` | app/bookmarks/stats/projection_repository.py:716-733 | ended working rows alone, by window end and user, as many as the limit allows, every one left off coming after all of the page |
| `Database.StatsDatabase.Start` | app/bookmarks/stats/projection_repository.py:420-448 | creates, starts or resumes the baseline, or is refused |
| `Database.StatsDatabase.SeedPage` | app/bookmarks/stats/projection_service.py:375-381 | the loop over a page is the page's effect, and fails as its first failing candidate does |
| `Database.StatsDatabase.RunStep` | app/bookmarks/stats/projection_service.py:355-397 | the step's committed state, or its error with the start undone too |
| `Service.BookmarkService.Create` | app/bookmarks/service.py:99-133 | a committed create stores exactly the given row, invalidates its owner once and queues one hint if there is room; one for an unknown owner or a taken id fails and does neither |
| `Service.BookmarkService.Patch` | app/bookmarks/service.py:189-233 | notifies exactly for a material patch that committed |
| `Service.BookmarkService.Remove` | app/bookmarks/service.py:235-255 | removes exactly the owned row and notifies exactly for a delete that committed; otherwise not found and no change |
| `Snapshots.CacheEffect` | app/bookmarks/stats/snapshots.py:35-97 | an invalidation hides one user's record; a publication is installed exactly under the current epoch, and then is what is read |
| `Snapshots.StatsSnapshotStore.Invalidate` | app/bookmarks/stats/snapshots.py:35-41 | advances one epoch and returns it |
| `Snapshots.StatsSnapshotStore.Epoch` | app/bookmarks/stats/snapshots.py:43-47 | the user's epoch, 0 at first |
| `Snapshots.StatsSnapshotStore.Publish` | app/bookmarks/stats/snapshots.py:49-87 | compare-and-set on the epoch; refused, nothing changes |
| `Snapshots.StatsSnapshotStore.Lookup` | app/bookmarks/stats/snapshots.py:89-97 | only a record of the current epoch |
| `Snapshots.StatsInvalidationPublisher.Publish` | app/bookmarks/stats/publisher.py:65-81 | always invalidates; queues the hint, or records its loss, for a full queue and for a failing one |
| `Snapshots.StatsInvalidationPublisher.Drain` | app/bookmarks/stats/publisher.py:83-97 | the oldest hints, at most limit, in order |
| `Snapshots.StatsInvalidationPublisher.AcknowledgeFullReconciliation` | app/bookmarks/stats/publisher.py:111-124 | cleared exactly when nothing was recorded since the epoch was read |
| `CurrentStatsProofs.ActAgrees` | app/bookmarks/stats/refresher.py:698-741 | no action breaks the agreement of visible records with live statistics |
| `CurrentStatsProofs.ActLosesNothing` | app/bookmarks/stats/refresher.py:698-741 | no action loses a mutation that no published read reflects |
| `CurrentStatsProofs.ActSweeps` | app/bookmarks/stats/refresher.py:360-375 | no action makes the sweep cursor pass a user not refreshed in the sweep |
| `CurrentStatsProofs.ReadRefinesLive` | app/bookmarks/stats/service.py:73-94 | under every interleaving, once no committed mutation of the user awaits its invalidation, the service's answer is the one for the user's present bookmarks, in plain counts and as live SQL returns it |
| `CurrentStatsProofs.ReadSource` | app/bookmarks/stats/service.py:73-94 | the answer comes from a snapshot exactly when refreshing is enabled and healthy and a record of the user's present epoch is held that is neither from the future nor older than allowed |
| `CurrentStatsProofs.NoLostInvalidation` | app/bookmarks/stats/dirty.py:289-331 | under every interleaving, a mutation no published read reflects keeps its row with the current completion behind its generation |
| `CurrentStatsProofs.FullReconciliation` | app/bookmarks/stats/refresher.py:360-375 | reconciliation is acknowledged only with every user present at the last page refreshed in the sweep, the backlog read empty and no trouble since the epoch was read |
| `CurrentStatsHistory.MutationCommits` | app/bookmarks/service.py:99-133 | a mutation is committed before its invalidation, which is then outstanding for its owner; the invalidation hides the owner's snapshot |
| `CurrentStatsHistory.SurroundingActions` | app/bookmarks/stats/refresher.py:355-385 | around the cycle time passes forward, users join, the projection phase takes its steps, a user's failure fails the cycle, and a trouble or a cycle broken off raises the demand for reconciliation |
| `CurrentStatsHistory.MutationIsReflected` | app/bookmarks/stats/refresher.py:698-741 | under every interleaving, a committed mutation's row keeps its current completion behind its generation until a read of the owner's live statistics, taken by an action after the mutation, was published by a later one |
| `CurrentStatsHistory.ReconciliationIsEarned` | app/bookmarks/stats/refresher.py:320-375 | the demand is dropped only by a cycle whose actions read the epoch, then the users, then an empty backlog, with no trouble recorded since the first; every user present at the second had a refresh published since the sweep was opened |
| `CurrentStatsHistory.UndisturbedCycle` | app/bookmarks/stats/refresher.py:303-375 | an uninterrupted cycle shows live statistics for every hinted, marked and paged user, ends the current work of its markers, and ends, advances or keeps the sweep and the demand |
| `ProjectionPhase.ApplyMarkers` | app/bookmarks/stats/refresher.py:483-495 | on any page the loop succeeds; each current marker ends its key's projection work and each stale one leaves its row as it was |
| `ProjectionPhase.CloseOverdue` | app/bookmarks/stats/refresher.py:496-508 | the loop succeeds and finalises every observed row that is not pending |
| `ProjectionPhase.RunProjectionPhase` | app/bookmarks/stats/refresher.py:431-541 | with a clock reading for each transaction a phase succeeds from every sound state; once active, no row of the oldest page is pending, every key with nothing pending is up to date, and overdue rows that fit a batch are closed unless pending |
| `Refresher.FinaliseIsFinished` | app/bookmarks/stats/refresher.py:710-741 | the interleaved model's last refresh step is the method's, whatever happened since the reads |
| `Refresher.StatsRefresher.FinishRefresh` | app/bookmarks/stats/refresher.py:710-741 | acknowledge all, publish, commit; any failure rolls the rows back, and a failed commit withdraws the publication |
| `Refresher.StatsRefresher.RefreshUser` | app/bookmarks/stats/refresher.py:698-741 | undisturbed, it fails only for a stale marker or a failed commit, and otherwise shows the live statistics |
| `Refresher.StatsRefresher.RefreshUsers` | app/bookmarks/stats/refresher.py:345-359 | success shows live statistics for every user; with current markers and no failing commit it succeeds |
| `Refresher.StatsRefresher.Conclude` | app/bookmarks/stats/refresher.py:360-375 | the three ends of a full cycle |
| `Refresher.StatsRefresher.RefreshCurrent` | app/bookmarks/stats/refresher.py:303-375 | the current phase shows live statistics for every hinted, marked and paged user; the demand for reconciliation ends exactly with the last page and an empty backlog |
| `Refresher.CycleDrains` | app/bookmarks/stats/dirty.py:227-241 | when each consumer finishes its own page of the oldest rows, a batch of rows is deleted or all are: the consumers' pages cannot starve each other |
| `Refresher.StatsRefresher.RunCycle` | app/bookmarks/stats/refresher.py:303-430 | both phases, undisturbed: the dirty table loses a batch of rows or all, every key with nothing pending is up to date, and snapshots that were live stay live |
| `Refresher.StatsRefresher.Work` | app/bookmarks/stats/refresher.py:743-779 | the loop drains n dirty rows within ceil(n / batch) cycles and brings every key up to date; with no dirty rows, a sweep with n users left ends after exactly floor(n / batch) + 1 cycles, and one from the first user leaves every snapshot live |
| `RateLimit.TokenBucket.EvictIdleEntries` | app/api/rate_limit.py:105-109 | exactly the idle entries go, and the order of the others is kept |
| `RateLimit.TokenBucket.TakeToken` | app/api/rate_limit.py:66-103 | the decision and new state of one request, and a valid state; which requests are allowed, `RateLimitTheorems.AllowedExactly` and `RateLimitTheorems.ExhaustedExactly` say |
| `RateLimit.ConsumeKeeps` | app/api/rate_limit.py:66-103 | entries stay sorted by last use, number at most max_keys, and hold between 0 and capacity tokens |
| `RateLimit.KeptSame` | app/api/rate_limit.py:105-109 | evicting idle entries cannot be observed by any later request |
| `RateLimit.ServeEffect` | app/api/rate_limit.py:87-103 | serving takes one token or records one event of one key and leaves the others alone |
| `RateLimitTheorems.BucketRefinesIdeal` | app/api/rate_limit.py:66-119 | every answer is the unbounded bucket's, or a capacity refusal or clock error exactly when the ideal's history says so |
| `RateLimitTheorems.RateBound` | app/api/rate_limit.py:66-119 | in any interval a key is allowed at most capacity + (t - s) * capacity / window requests |
| `RateLimitTheorems.AllowedExactly` | app/api/rate_limit.py:66-119 | a served request is allowed if and only if, for every s up to it, the key's allowed requests since s and this one are at most capacity + (t - s) * capacity / window |
| `RateLimitTheorems.FirstAreAllowed` | app/api/rate_limit.py:76-103 | a key with fewer than capacity allowed requests behind it is allowed whenever it is served |
| `RateLimitTheorems.ExhaustedExactly` | app/api/rate_limit.py:66-85 | refused for capacity exactly when the key was not served within the idle time and max_keys others were; the delay is then the least whole number of seconds, at least one, in which a token accrues |
| `RateLimitTheorems.EventsAreSpaced` | app/api/rate_limit.py:127-145 | a refusal is reported exactly when the last report of its kind is a window old, across evictions |
| `RateLimitTheorems.RetryBounds` | app/api/rate_limit.py:121-125 | the delay is between 1 and the window, and is the least whole number of seconds for a token to accrue |
| `RateLimitTheorems.RetryIsExact` | app/api/rate_limit.py:95-103 | rejected up to r - 1 seconds later, served from r on, whatever else is refused meanwhile; exhausted only after a whole idle time |
| `RateLimitTheorems.RetryIsAllowedWhen` | app/api/rate_limit.py:66-103 | from the delay on, allowed exactly when the key was seen within the idle time or the history leaves a slot free |
| `RateLimitTheorems.WaitingSufficesExactly` | app/api/rate_limit.py:76-103 | waiting as told suffices, whatever others do, if and only if the delay is shorter than the idle time |
| `RateLimitTheorems.WaitingCanLoseTheSlot` | app/api/rate_limit.py:76-85 | counterexample: a client that waits as told finds its slot taken |
| `Search.ThreePassesEscape` | app/bookmarks/policy.py:58-61 | the three replacements are one single-pass escape |
| `Search.PatternMeansOccurrence` | app/bookmarks/policy.py:58-61 | the pattern of any text matches exactly the texts at some place of which it stands, letter by letter, where the two cases of an ASCII letter count as the same |
| `Search.WhyEscape` | app/bookmarks/policy.py:58-61 | unescaped wildcards would match texts in which the search text does not occur |
| `Search.BoundFiltersByTime` | app/bookmarks/repository.py:225-234 | on every platform, a bound filters the rows of four-digit years by time if and only if its own text sorts right: zero-filled, from 1000 on, or 1, 10 or 100 |
| `Search.OtherShortYear` | app/bookmarks/repository.py:225-234 | any other bound, which only a platform without zero-filling has, hides the first instant of the year 1000 |
| `Search.WindowFiltersByTime` | app/bookmarks/stats/weekly.py:26-62 | on every platform, a week's two text bounds select the rows of four-digit years by time if and only if years are zero-filled, the week begins in a four-digit year, lies in one year, or ends year 9 or 99 |
| `Search.StoredWindowIsWindow` | app/bookmarks/stats/weekly.py:26-62 | exactly for such a week does the weekly statements' WHERE clause select the window's rows in every table of four-digit years |
| `Search.SearchPredicates` | app/bookmarks/repository.py:207-235 | the predicates together mean the query: owner, tag, text in title, inclusive dates, with no upper bound at date.max |
| `Paging.TotalIsListed` | app/bookmarks/repository.py:70-77 | the count is the length of the listing |
| `Paging.ListingMeans` | app/bookmarks/repository.py:82-88 | the listing holds each selected row once, the newest first and of one instant the highest id first |
| `Paging.OffsetPageMeaning` | app/bookmarks/repository.py:70-101 | page n holds the listing's rows from place (n - 1) * size on, at most size, with the number of all selected rows even when it is empty |
| `Paging.CursorPagesAreOffsetPages` | app/bookmarks/repository.py:103-149 | on an unchanged table the n-th cursor page is the n-th offset page, and exists exactly while there are rows for it |
| `Paging.PagesAreTheListing` | app/bookmarks/repository.py:103-149 | the pages put together are the descending listing |
| `Paging.PageHolds` | app/bookmarks/repository.py:115-135 | a page holds the selected rows beyond its boundary up to its last row; the last page holds all |
| `Paging.WalkUnderChange` | app/bookmarks/service.py:147-183 | however the table changes between pages, what is yielded is strictly newest first, so no key twice; a finished walk has yielded every row that stayed |
| `Paging.WalkOfFixed` | app/bookmarks/service.py:147-183 | while the table stays as it is, n pages yield the first n * size rows of the listing, and the walk ends exactly when that is all |
| `Paging.TagNames` | app/bookmarks/repository.py:242-260 | each listed bookmark gets its own tags, once each, in order |
| `Base64.DecodeInvertsEncode` | app/bookmarks/pagination.py:41-51 | every non-empty byte string decodes from its encoding |
| `Base64.AcceptsExactlyEncodings` | app/bookmarks/pagination.py:45-51 | a text is accepted exactly when non-empty, in the alphabet, of possible length and with zero pad bits; it is then the only encoding of its bytes |
| `Base64.EncodeMeans` | app/bookmarks/pagination.py:41-42 | each three bytes as a number of 24 bits are four digits to base 64 in the URL-safe alphabet, by ASCII code, and there are exactly as many characters as the bits need |
| `Json.ParseInvertsRender` | app/bookmarks/pagination.py:35-38 | a canonical object is read back member by member |
| `Json.RejectDuplicates` | app/bookmarks/pagination.py:54-60 | a dictionary of exactly the pairs, or an error exactly for a repeated key |
| `Cursor.UnpackInvertsSign` | app/bookmarks/pagination.py:128-134 | a signed payload unpacks to its values unless the token is over-long |
| `Cursor.DecodeOfIssued` | app/bookmarks/pagination.py:109-194 | decoding an issued token gives its boundary if and only if owner, filters and page size are its own, it is not over-long, and the time is from the second it was issued in, which is at least one after 1970 began, until ttl seconds later |
| `Cursor.BindingIsExact` | app/bookmarks/pagination.py:105-194 | unless digests collide, exactly the token's own owner id, filters and page size are accepted, within its life in instants |
| `Cursor.IssuedText` | app/bookmarks/pagination.py:109-134 | an issued token, character by character: the canonical JSON of the nine members, `iat` the whole seconds since 1970-01-01, encoded, a dot, and the encoded digest of the part before it |
| `Cursor.AcceptedIsIssued` | app/bookmarks/pagination.py:136-194 | whatever decode accepts is the token signed for just that boundary, owner, filters and size, issued within the last ttl, and not over-long |
| `Cursor.SignedIsAccepted` | app/bookmarks/pagination.py:136-194 | every such token is accepted, with the version spelled `1`, `1.0` or `true` |
| `Cursor.DecodeAcceptsExactly` | app/bookmarks/pagination.py:136-194 | decode returns a boundary if and only if the token is one so signed for it |
| `Cursor.TokenFits` | app/bookmarks/pagination.py:146-150 | with numbers of up to a hundred digits no issued token is over-long |
| `TokenListing.TokensReachOffsetPages` | app/bookmarks/service.py:147-183 | requests that present the last token in time list an unchanged table exactly as offsets do |

## Left out

- FastAPI routing, middleware, error envelopes, migrations, seeding, Docker: plumbing and fixed data.
- Authentication, password hashing, key derivation and the digests themselves: foreign calls, taken as functions.
- Logging, health and readiness precedence, counters and timing fields of the refresher and publisher: output only. The
  processed counts, appended revision and created-row flag that the projection steps report are left out with them.
- Threads, event waits and join timeouts: interleaved steps under the cycle lock. `app/bookmarks/stats/refresher.py` appears
  twice: as steps that other actions may come between (`CurrentStats.dfy`), and as undisturbed methods (`Refresher.dfy`).
- Provenance columns: calculated_at, developed_at, source_generation, correction_reason, marker reasons and first_marked_at.
- Savepoint races on tag names; tags are the set of names linked to a bookmark.
- The queue's own failure is an input of `Snapshots.StatsInvalidationPublisher.Publish`; in `CurrentStats.dfy` any trouble may
  be recorded at any time.
- The interval and full-reconciliation clock of the loop: `Refresher.StatsRefresher.Work` takes as input which cycles are due
  in full, and no request acts between its cycles.
- Nonfinite clock readings and rounding in the rate limiter, and in converting timestamps to seconds.
- Search.PatternMeansOccurrence: does not model Python's lower(), which differs from SQLite's outside ASCII; it is about the
  two texts actually compared.
- Json.ParseInvertsRender: covers flat objects of plain texts and whole numbers, the only ones a cursor can hold; other JSON
  can reach `decode` but cannot be the canonical text of the nine members.
- Cursor.DecodeOfIssued: compares owner and filter tags; `Cursor.BindingIsExact` compares owners and filters, for digests that
  do not collide.
- Keyset comparison in `Paging.dfy` is on instants; by `Calendar.StoredOrder` that is the comparison of the stored texts for
  years written with four digits.
- The width checks on stored timestamps (`app/bookmarks/stats/dirty.py:64`): where years are not zero-filled they refuse every
  row of a week begun before the year 1000. The projection model selects weeks by instants and does not treat those specially.
- Leniency of `strptime` about unpadded fields: the model reads only the fixed-width text.
- Pydantic and settings validation: taken as given by the types.
