# I8SL verification model

A Dafny model of the I8SL link shortener and proofs about its three hard parts: the token-bucket
rate limiters that throw state away, the timestamps that SQLite keeps and compares as text, and the
life of a rule under concurrent clients. `dafny verify dfyconfig.toml` checks the whole project.

## How the model is laid out

| file | what it models |
|---|---|
| `TokenBucket.dfy` | the bucket both limiters use, as a specification, and its theory: windows, optimality, forgetting |
| `KeyedLog.dfy` | histories of calls under many keys, the part each key sees, windows of wall-clock time |
| `RedisLimiter.dfy` | the Lua script over the Redis key space on two clocks, the expiry arithmetic of `NewRedis`, `Allow` |
| `MemoryLimiter.dfy` | `MemoryLimiter.Allow` and its sweep over the clients map |
| `TextOrder.dfy`, `Timestamps.dfy` | byte order of decimal text; the calendar, formatting, parsing, text order against time order |
| `Rules.dfy`, `Lifecycle.dfy` | rules, the abstract store, whole histories with and without cleanups |
| `SqliteStore.dfy`, `SqliteHistory.dfy` | the SQLite store as a class over rows of text, and whole histories of it |
| `PostgresStore.dfy`, `PostgresProofs.dfy` | the Postgres store as interleaved steps with row locks and snapshots, and what every run guarantees |
| `PostgresCleanup.dfy`, `PostgresHistory.dfy` | what its cleanups delete and wait for, and what they change for clients over whole runs |
| `Codes.dfy`, `Service.dfy`, `Server.dfy` | code generation and validation, the service, the generation and redirect routes |
| `Text.dfy`, `Prelude.dfy` | `strings.TrimSpace`, option and result types |

Clocks, randomness, network loss and database faults are parameters. Time in the store is a count of
nanoseconds from the start of year 0 in UTC. Tokens are exact reals. `rate.Limiter` of
golang.org/x/time is taken to be a bucket of the same kind as the script's, with one clock reading
for each call.

## What is true, and what is not

* **Expiry of Redis keys is invisible when clocks keep step, and not always otherwise.** The caller
  reads its clock, the server decides by its own when to drop a key, and `jitter` is by how many
  milliseconds their difference has varied, network delay included. `NewRedis` cuts the refill time
  to a whole millisecond, but Redis drops a key only after its deadline, so with no jitter no client
  can tell that keys expire, in any configuration. In general it is invisible exactly when the refill
  time is at most the expiry plus one millisecond less the jitter (`ExpiryIsInvisibleIff`). With a
  jitter of one millisecond, those are the configurations whose refill time is a whole number of
  milliseconds or within the configured TTL or one minute (`LongEnoughWithLittleJitter`): a failure
  then needs a drop in the very millisecond of the deadline, as the caller's clock counts.
  `ExpiryShows` has the calls. A dropped key gives away less than one millisecond's refill for every
  millisecond of jitter (`ExpiryOverCredits`).
* **The in-memory sweep does not look at the refill time at all.** It is invisible exactly when the
  TTL plus one nanosecond refills the bucket, for all calls of all clients under a clock that does
  not run backwards (`SweepIsInvisibleIff`); otherwise one client that drains its bucket twice sees it
  (`SweepShows`).
* **SQLite cleanup can delete a rule that would still resolve, and keep one that has expired.** Text
  order is time order except within one second when one trimmed fraction properly continues the
  other, where it is the opposite (`TextOrderIsTimeOrderIff`). A live rule is deleted exactly when the
  fraction of its expiry continues that of the current time, as when it expires within the second
  that has just begun (`CleanupDeletesALiveRule`). An expired one is kept exactly when the current
  time's fraction continues that of the expiry, as when it expired at the start of this second
  (`CleanupErrsIff`, `CleanupKeepsAnExpiredRule`). The error stays under one second
  (`CleanupIsRightToTheSecond`). Over whole histories, resolves made before the second in which a
  rule expires are safe, and one made in that second loses its rule exactly to an earlier cleanup in
  it whose fraction the expiry's continues, when no cleanup is ahead of the resolve's time
  (`SqliteLosesRulesIff`).
* **A long TTL overflows.** A rule resolves for its TTL, over every history that leaves it alone and
  in which no cleanup is ahead of the resolve's time, exactly when the TTL is at most 9223372036 seconds (`ResolvesForItsTTLIff`). Above that its expiry
  is not creation time plus TTL, and it has expired when it is created exactly when the TTL lies in
  one of the bands of `BornExpiredIff`, the first of which is 9223372037 to 18446744073 seconds.
* **A Postgres cleanup is not one atomic deletion of everything expired.** Other clients can act
  between its row locks. It deletes exactly the rules that had expired when it began and are still
  there when it commits (`CleanupDeletesExactly`). That is everything expired at its commit exactly
  when every rule expired by then had already expired when it began (`CleanupIsAtomicIff`). In the run
  of `CleanupMissesRules` it answers that it deleted nothing, although at every moment since it began
  some rule had expired. Every run is still sequential when a cleanup may take any of the expired
  rules (`EveryRunIsSequential`).
* **Cleanups are not invisible to resolves merely because the clock never runs backwards.** The
  service reads the clock before a resolve begins its transaction, so operations need not take effect
  in the order of their times. In the run of `LateResolveIsLost` a resolve reads 9, a whole cleanup
  with the time 10 follows, and the resolve of a rule that expires at 10 is told that there is no such
  rule; without the cleanup's steps it succeeds (`PromptResolveSucceeds`). The exact condition, with
  the time of the cleanup, the time of the resolve and the expiry: a rule with uses left that nobody
  deletes resolves exactly when the time of the resolve is before the expiry, and no cleanup that took
  its row and took effect before has a time at or after the expiry (`RunResolvesIff`). So a resolve is
  lost only to a cleanup with resolve time < expiry <= cleanup time, and none is lost when every
  cleanup that took effect before has a time no later than the resolve's
  (`ResolvesOfRunsSurviveCleanups`).

## Model

| member | source | states |
|---|---|---|
| TokenBucket.BucketDecidesByWindows | internal/ratelimit/redis.go:18-42 | the answers of the two-number bucket are exactly those of a stateless test over every past window, with elapsed time the sum of positive clock steps |
| TokenBucket.LevelIsLeastHeadroom | internal/ratelimit/redis.go:22-31 | the stored token count is the least headroom over all windows ending now |
| TokenBucket.GreedyAdmitsMost | internal/ratelimit/redis.go:33-37 | no choice of admissions under the same burst and refill is ahead of the script at any prefix of any request sequence |
| TokenBucket.LeadBoundsTokenGap | internal/ratelimit/redis.go:22-37 | another chooser's bucket is ahead by at most the number of admissions the script is ahead |
| TokenBucket.RequestIs | internal/ratelimit/redis.go:22-37 | the arithmetic of one request in plain numbers: what flows back, the cap at the burst, and what is left |
| TokenBucket.ElapsedIs | internal/ratelimit/redis.go:30 | a backward step of the clock counts for nothing; without one, elapsed time is the difference of the readings |
| TokenBucket.ForgettingIsInvisibleIff | internal/ratelimit/redis.go:22-31 | dropping state after a gap changes no answer of any run exactly when the gap refills the whole bucket |
| TokenBucket.ForgettingVisible | internal/ratelimit/redis.go:22-24 | otherwise draining the bucket on both sides of a gap is a run in which it shows |
| TokenBucket.ExpiryGain | internal/ratelimit/redis.go:22-31 | a request that finds its state dropped gains something between nothing and the tokens the gap had not refilled |
| TokenBucket.AdmissionsWithinAllowance | internal/ratelimit/redis.go:18-42 | admissions in any window are at most burst, plus refill, plus what the expiries inside the window gave away |
| TokenBucket.AdmissionsWithForgetting | internal/ratelimit/memory.go:44-54 | for any gap, a window of length T holds at most burst * (1 + floor(T / gap)) admissions beyond its refill |
| KeyedLog.OwnBucketAppend | internal/ratelimit/redis.go:33-42 | answering from the stored bucket extends the key's history by one bucket step |
| KeyedLog.CanonicalIff | internal/ratelimit/redis.go:89-91 | of all keys only the absent one and "unknown" are taken for one client |
| KeyedLog.AdmissionsPerWindow | internal/ratelimit/redis.go:18-42 | admissions of one key in any wall-clock window of length T are at most burst + rate * T, whatever other keys do |
| KeyedLog.AdmissionsPerWindowForgetting | internal/ratelimit/memory.go:44-54 | the same with one more burst for every whole gap in the window |
| RedisLimiter.RedisLimiter.RunScript | internal/ratelimit/redis.go:13-42 | the script admits exactly when a token is left in the key's own bucket, records the call, keeps every key's hash in step with its history, and leaves other keys alone |
| RedisLimiter.RedisLimiter.Keep | internal/ratelimit/redis.go:39-40 | what is stored is the bucket the call leaves, with a deadline one TTL later on the server's clock |
| RedisLimiter.RedisLimiter.Allow | internal/ratelimit/redis.go:88-107 | a delivered reply is what the bucket of the calls made under the client's own key gives, whatever others call; a lost request leaves no trace, a lost reply is an error although the script has run |
| RedisLimiter.NamesTellClientsApart | internal/ratelimit/redis.go:89-96 | two keys share a name in Redis exactly when they stand for one client; the name is the prefix, a colon and the key |
| RedisLimiter.ClientHasItsOwnBucket | internal/ratelimit/redis.go:88-107 | in every state of the limiter, the calls made under one client's key were answered like a lone bucket fed exactly those calls |
| RedisLimiter.KeyStep | internal/ratelimit/redis.go:22-42 | one call keeps the key's hash equal to the bucket of its history, dropped only when more than the TTL less the jitter has passed since its last call |
| RedisLimiter.ComputeStateTTL | internal/ratelimit/redis.go:68-77 | the branches yield the largest of the TTL, the refill time and one minute |
| RedisLimiter.NewRedis | internal/ratelimit/redis.go:53-86 | a blank address is refused, a blank prefix is replaced, and the limiter starts empty with the configured rate |
| RedisLimiter.ExpiryIs | internal/ratelimit/redis.go:68-77 | the expiry handed to Redis is the largest of the TTL, the refill time cut to a millisecond, and one minute |
| RedisLimiter.ScriptReflects | internal/ratelimit/redis.go:13-42 | whatever calls a key gets on whatever clocks, folding the script over them answers like a bucket of the key's own |
| RedisLimiter.ExpiryIsInvisibleIff | internal/ratelimit/redis.go:68-100 | over all sequences of calls with at most the given jitter, the script answers as on a server that never drops a key, exactly when the refill time is at most the expiry plus one millisecond less the jitter |
| RedisLimiter.LongEnoughWithLittleJitter | internal/ratelimit/redis.go:68-77 | that holds in every configuration without jitter; with one millisecond of it, exactly when the refill time is whole milliseconds, or within the TTL or one minute |
| RedisLimiter.ExpiryShows | internal/ratelimit/redis.go:22-42 | otherwise two bursts of calls on both sides of the drop are all admitted, and would not be if keys were kept |
| RedisLimiter.ExpiryOverCredits | internal/ratelimit/redis.go:68-100 | in every configuration a request whose hash was dropped finds less than perMinute / 60000 tokens per millisecond of jitter more than the hash would have given it, and no more without jitter |
| RedisLimiter.ScriptDecidesByWindows | internal/ratelimit/redis.go:13-42 | when the bucket refills before its key can be dropped, each key's answers are those of the stateless window test, across expiries and interleaved keys |
| MemoryLimiter.MemoryLimiter.Cleanup | internal/ratelimit/memory.go:65-71 | the loop keeps exactly the clients seen within the TTL, unchanged |
| MemoryLimiter.MemoryLimiter.Allow | internal/ratelimit/memory.go:34-55 | a call sweeps, is answered from the bucket of the calls made under its own key or a new one, and changes no other client that the sweep keeps |
| MemoryLimiter.ClientHasItsOwnBucket | internal/ratelimit/memory.go:34-55 | in every state of the limiter, the calls made under one client's key were answered like a lone bucket fed exactly those calls |
| MemoryLimiter.KeyCalled | internal/ratelimit/memory.go:44-54 | under a clock that does not run backwards the called key is found evicted exactly when it was idle for longer than the TTL |
| MemoryLimiter.KeysDoNotInterfere | internal/ratelimit/memory.go:34-71 | for every interleaving of keys, each key is answered like a lone bucket that is never evicted, when the TTL refills a bucket |
| MemoryLimiter.SweepIsInvisibleIff | internal/ratelimit/memory.go:34-71 | over all sequences of calls of all clients in time order, the limiter answers as it would without evictions, exactly when the TTL plus one nanosecond refills the bucket |
| MemoryLimiter.SweepShows | internal/ratelimit/memory.go:44-71 | otherwise one client that drains its bucket, and again just over a TTL later, is admitted every time, and would not be without evictions |
| MemoryLimiter.AdmissionsDespiteSweeps | internal/ratelimit/memory.go:34-71 | with no condition, a key's admissions in a window of length T are at most burst * (1 + floor(T / TTL)) + rate * T |
| TextOrder.DigitsSortByValue | internal/storage/sqlite/store.go:276-278 | numbers of one width sort as text like their values |
| TextOrder.LongerFractionIsLarger | internal/storage/sqlite/store.go:276-278 | a trimmed fraction that continues another stands for a larger value |
| Timestamps.InRangeIffFourDigitYear | internal/storage/sqlite/store.go:276-278 | the range of instants the store is modelled on is exactly the years 0 to 9999 |
| Timestamps.DatesInOrder | internal/storage/sqlite/store.go:276-278 | calendar dates sort field by field like their day numbers |
| Timestamps.DateIs | internal/storage/sqlite/store.go:276-287 | which triples are dates, and which day each is, in closed form: 365 days a year and a leap day, and (367 * month - 362) / 12 days before a month of a year |
| Timestamps.TextOrderIsTimeOrderIff | internal/storage/sqlite/store.go:120-125 | two stored texts compare like their times, except in the same second when one fraction properly continues the other, where the order is reversed |
| Timestamps.TextOrderErrsIff | internal/storage/sqlite/store.go:120-125 | the later of two times sorts first exactly when, in the same second, its fraction properly continues the other's |
| Timestamps.EqualDigitCountsAgree | internal/storage/sqlite/store.go:276-278 | with equally many fractional digits text order is time order (section 5.1 of RFC 3339) |
| Timestamps.ParseUndoesFormat | internal/storage/sqlite/store.go:276-287 | formatting then parsing returns the same nanosecond for every instant of the years 0 to 9999 |
| Timestamps.FormatTimeIs | internal/storage/sqlite/store.go:276-278 | the stored text character by character: where separators and digits stand, that the digits name the instant, and that the fraction has no trailing zeros |
| Timestamps.ParseTimeIs | internal/storage/sqlite/store.go:280-287 | exactly the texts of that shape that name a real second are read, each as the instant its digits name (grammar of section 5.6 of RFC 3339) |
| Timestamps.ParseAccepts | internal/storage/sqlite/store.go:280-287 | only texts of real instants parse, and formatting gives the text back exactly when its fraction has no trailing zeros (grammar of section 5.6 of RFC 3339) |
| Rules.ResolveIs | internal/storage/sqlite/store.go:138-185 | by the fields of the rule: a resolve is refused as "ttl" exactly when the expiry is set and has come, as "max_usages" exactly when it has not and the uses are spent, and counts one use otherwise |
| Rules.FaultsHideTheAnswer | internal/storage/sqlite/store.go:138-185 | under a fault a client is told "unavailable", or that its resolve was refused, and the operation has not happened, or has happened whole when only its confirmation was lost |
| Rules.DeleteUndoesInsert | internal/storage/sqlite/store.go:52-118 | a rule is inserted under a free code only, is then read back, and deleting it restores the table |
| Lifecycle.CleanupsTakeOnlyExpired | internal/storage/postgres/store.go:120-136 | whatever the clocks, and when no create meets a rule that a cleanup has taken, cleanups inserted anywhere into a history leave every answer as it was, except that a rule that had expired for an earlier cleanup may be not found; a resolve that would have succeeded is lost only to a cleanup with resolve time < expiry <= cleanup time |
| Lifecycle.ResolvesSurviveCleanups | internal/storage/postgres/store.go:164-166 | a resolve succeeds with cleanups exactly when it succeeds without them, and returns the same rule, if no earlier cleanup that is offered its code has a later time |
| Lifecycle.CleanupsAreHiddenIff | internal/storage/postgres/store.go:120-136 | for operations that take effect in time order, no insertion of cleanups in time order changes more than that exactly when no create meets an expired rule that is still in the table |
| Lifecycle.CleanupFreesExpiredCode | internal/storage/postgres/store.go:120-136 | otherwise a cleanup inserted right before such a create lets it succeed |
| Lifecycle.ResolvesWhileItLasts | internal/shortener/service.go:382-394 | in every history in which nobody deletes a rule or uses its code again once a cleanup may have taken it, whatever the clocks, a resolve succeeds exactly when its time has not come, its uses so far are within its limit and no earlier cleanup came at or after its expiry, and returns it with those uses and its own counted |
| Lifecycle.ResolveAnswers | internal/shortener/service.go:382-394 | in the same histories, how every resolve is answered: not found exactly once a cleanup took the rule, expired for its time or for its uses by its fields, or with the rule |
| SqliteStore.LoadUndoesSave | internal/storage/sqlite/store.go:52-100 | loading a stored rule returns an equal rule with every optional field kept |
| SqliteStore.ScanRule | internal/storage/sqlite/store.go:208-258 | filling a rule column by column yields the rule the row stands for, or an error when a time does not parse |
| SqliteStore.Store.CreateRule | internal/storage/sqlite/store.go:52-81 | an insert adds exactly the rule under a free code, is refused without effect under a taken one, and may take effect although its confirmation is lost |
| SqliteStore.Store.GetRule | internal/storage/sqlite/store.go:83-100 | a read returns the stored rule or "not found" |
| SqliteStore.Store.DeleteRule | internal/storage/sqlite/store.go:102-118 | a delete removes exactly the named rule, or reports "not found", with the same faults |
| SqliteStore.Store.DeleteExpired | internal/storage/sqlite/store.go:120-136 | the cleanup deletes exactly the rows its text comparison picks, and counts them, with the same faults |
| SqliteStore.Store.ResolveRule | internal/storage/sqlite/store.go:138-185 | a resolve over rows of text answers and updates like a resolve on the table of rules, with every fault on the way |
| SqliteStore.CleanupIsExactIff | internal/storage/sqlite/store.go:120-125 | the cleanup judges a rule as `Rule.Expired` does exactly when the rule is used up or its expiry text does not mislead |
| SqliteStore.CleanupOfTableIsExactIff | internal/storage/sqlite/store.go:120-125 | the cleanup of a table deletes exactly the expired rules if and only if no rule with uses left has a misleading expiry |
| SqliteStore.CleanupIsRightToTheSecond | internal/storage/sqlite/store.go:120-136 | used-up rules and rules whose expiry second is past go, rules whose expiry second is to come stay, and the error is under one second |
| SqliteStore.CleanupErrsIff | internal/storage/sqlite/store.go:120-125 | a live rule is deleted exactly when the fraction of its expiry continues the current time's; an expired one is kept exactly when the current time's fraction continues that of the expiry |
| SqliteStore.CleanupDeletesALiveRule | internal/storage/sqlite/store.go:120-125 | at the start of a second, every rule with uses left that expires within that second is deleted although it would resolve |
| SqliteStore.CleanupKeepsAnExpiredRule | internal/storage/sqlite/store.go:120-125 | a rule that expired at the start of a second is kept for the rest of that second |
| SqliteHistory.Perform | internal/storage/sqlite/store.go:52-185 | the methods of the store, one for each kind of operation, do what the operation does to the table of rules, with the cleanup that compares text |
| SqliteHistory.ResolvesOnSqlite | internal/storage/sqlite/store.go:120-185 | in every history that leaves a rule in place, whatever the clocks, a resolve succeeds exactly when its time has not come, it has uses left and no earlier cleanup came to which the text of its expiry said that its time had come |
| SqliteHistory.SqliteLosesRulesIff | internal/storage/sqlite/store.go:120-185 | with no cleanup ahead of the resolve's time, a rule that still lasts is lost exactly to a cleanup in the second in which it expires whose fraction the expiry's continues; resolves before that second are safe |
| SqliteHistory.SqliteAnswers | internal/storage/sqlite/store.go:120-185 | the same for the SQLite store, whose cleanups compare text |
| PostgresProofs.InvHolds | internal/storage/postgres/store.go:138-186 | in every reachable state a transaction that holds a row sees the committed row |
| PostgresProofs.TransactionsGoOn | internal/storage/postgres/store.go:138-186 | in every reachable state each open transaction can give up, and can take its next step unless another has locked its row |
| PostgresProofs.StepRefinesStore | internal/storage/postgres/store.go:52-186 | every step is invisible or does, and answers, what one operation on the table of rules does, unless its confirmation is lost |
| PostgresProofs.CommitsRefine | internal/storage/postgres/store.go:168-184 | the used count returned after a commit is the committed one |
| PostgresProofs.EveryRunIsSequential | internal/storage/postgres/store.go:52-186 | every interleaving of resolves, creates, reads, deletes and cleanups, with lost confirmations of any of them, gives its clients the answers of its completed operations run one at a time, and leaves the same table |
| PostgresProofs.ResolveDoesWhatWasAsked | internal/storage/postgres/store.go:138-186 | a resolve takes effect at the step that answers it, for the code and time it began with |
| PostgresProofs.UsedCountIsExact | internal/storage/postgres/store.go:169-174 | the used count of every rule ever created (unused, as the service creates them) is the number of its committed uses and within its limit |
| PostgresProofs.ReturnedCountIsItsTurn | internal/storage/postgres/store.go:178-185 | a successful resolve returns the number of uses committed so far, its own included |
| PostgresProofs.RedirectsWithinLimit | internal/storage/postgres/store.go:164-183 | redirects served for a rule are at most its used count, which is at most its limit; without lost confirmations they are equal |
| PostgresCleanup.CleanupIsThorough | internal/storage/postgres/store.go:120-136 | whatever happens meanwhile, a committed cleanup leaves no rule that had expired when it began, and deletes only expired rules |
| PostgresCleanup.CleanupDeletesExactly | internal/storage/postgres/store.go:120-136 | it deletes exactly the rules that had expired when it began and are still there, and answers with their number |
| PostgresCleanup.CleanupIsAtomicIff | internal/storage/postgres/store.go:120-136 | its commit acts and answers as a deletion of everything then expired exactly when all of that had expired when it began |
| PostgresCleanup.CleanupMissesRules | internal/storage/postgres/store.go:120-136 | a run from the empty store in which a cleanup deletes nothing although some rule had expired at every moment from its start to its end |
| PostgresCleanup.CleanupWaitsOnlyForLocks | internal/storage/postgres/store.go:120-136 | in every reachable state a cleanup can commit, or take one of its rows, or waits for a row that another transaction has locked |
| PostgresHistory.CleanupsOfRunsTakeOnlyExpired | internal/storage/postgres/store.go:52-186 | in every run, clients hear what the operations would answer without cleanups, except that a rule that had expired for a cleanup that took effect before may be not found |
| PostgresHistory.ResolvesOfRunsSurviveCleanups | internal/storage/postgres/store.go:138-186 | in every run, a resolve that hears an answer succeeds exactly when it would without cleanups, and with the same rule, if no cleanup that took effect before and took its code has a later time |
| PostgresHistory.RunResolvesIff | internal/storage/postgres/store.go:120-186 | in every run, a resolve of a rule that nobody deletes succeeds exactly when its time is before the expiry, the rule has uses left, and no cleanup that took the row before has a time at or after the expiry |
| PostgresHistory.RunAnswersResolves | internal/storage/postgres/store.go:138-186 | in every run, how each resolve of such a rule is answered: not found once a cleanup took it, "ttl" or "max_usages" by its fields, or with the rule |
| PostgresHistory.LateResolveIsLost | internal/shortener/service.go:243-263 | a run under a clock that never runs backwards in which a resolve that began before the expiry is told "not found", because a whole cleanup came between its clock reading and its first statement |
| PostgresHistory.PromptResolveSucceeds | internal/storage/postgres/store.go:138-186 | the same resolve without the cleanup's steps succeeds |
| Codes.Generate | internal/code/generator.go:19-36 | the loop yields one letter of the alphabet per draw, and fails for a length below one or a failed draw |
| Codes.AlphabetIs | internal/code/generator.go:9 | the alphabet has each small letter, capital and digit once, in that order |
| Codes.EveryCodeIsDrawnOnce | internal/code/generator.go:19-36 | every text of letters and digits comes from exactly one sequence of draws, so that uniform draws give uniform codes |
| Codes.LettersAreWellFormed | internal/code/generator.go:9-36 | 4 to 32 letters of the alphabet satisfy the pattern for codes |
| Text.TrimSpaceSplits | internal/shortener/service.go:356-380 | trimming leaves a text without white space at its ends, and drops nothing but white space |
| Text.TrimSpaceDrops | internal/shortener/service.go:356-380 | white space added on both sides is dropped again |
| Codes.ValidateCodeIs | internal/shortener/service.go:369-380 | between white space, a code is accepted exactly when it is 4 to 32 letters of the alphabet, and is otherwise the invalid field "code" |
| Codes.NormalizeAliasIs | internal/shortener/service.go:356-367 | the same for an alias, which may be blank |
| Codes.WellFormedIsFixed | internal/shortener/service.go:369-380 | validation returns its argument unchanged exactly for well-formed codes |
| Codes.AcceptedIsFixed | internal/shortener/service.go:356-380 | every accepted alias and every accepted code is a fixed point of validation |
| Service.RuleFromInputIs | internal/shortener/service.go:267-304 | field by field: a request is accepted exactly when its target is, its alias is blank or 4 to 32 letters, and neither number is negative; the rule has its target, its alias, the time of creation, no uses, its limit and its expiry; the first wrong field is named otherwise |
| Service.ExpiryIsExactIff | internal/shortener/service.go:281-284 | a new rule expires at creation time plus TTL exactly when the TTL is at most 9223372036 seconds |
| Service.NewRuleResolvesWhileItLasts | internal/shortener/service.go:281-294 | in every history that leaves a new rule alone, with no cleanup ahead of the resolve's time, a resolve succeeds exactly when its TTL, as a 64-bit duration, has not passed and fewer uses were made of it than it was created for |
| Service.ResolvesForItsTTLIff | internal/shortener/service.go:281-284 | without a usage limit, a new rule resolves at exactly the times before creation plus TTL, in all such histories, when and only when the TTL is at most 9223372036 seconds |
| Service.BornExpiredIff | internal/shortener/service.go:281-284 | a rule has expired at its creation exactly when its TTL lies in one of the bands, 2^63 to 2^64 nanoseconds above a multiple of 2^64, that wrap around to the past; the first is 9223372037 to 18446744073 seconds |
| Service.Service.CreateRule | internal/shortener/service.go:141-198 | whatever other clients do between the attempts, an acceptable request inserts one rule that carries what it asked for, under its alias or the first generated code that is not taken when it is tried; exhaustion after exactly ten taken codes; at most one insert takes effect, and a lost confirmation is the only way to add a rule and fail |
| Service.Service.GetRule | internal/shortener/service.go:200-220 | a code is validated, then read from the store |
| Service.Service.DeleteRule | internal/shortener/service.go:222-241 | a code is validated, then deleted from the store |
| Service.Service.ResolveRule | internal/shortener/service.go:243-263 | a code is validated, then resolved at the current time |
| Service.Service.DeleteExpired | internal/shortener/service.go:126-139 | the service's cleanup is the store's |
| Service.EveryRuleIsReachable | internal/shortener/service.go:369-380 | in every state the service keeps, the code that clients are told passes validation and finds the rule: it can be read, deleted, and resolved unless its fields say that it has expired |
| Server.Api.WithRateLimit | internal/server/server.go:282-299 | a request goes on only when the limiter answered and admitted it; refusals are counted by route |
| Server.Api.CreateRule | internal/server/server.go:183-196 | a request is answered with the rule the table gained, which carries what it asked for, when its code was free and nothing failed; with a conflict when its alias was taken, a bad request when it is not acceptable, and an internal error after ten taken codes or a failure |
| Server.Api.Generate | internal/server/server.go:154-199 | both generation routes draw on one limiter; an admitted request is answered as above, any other changes nothing and is refused; the log records a rule even when the client is not told |
| Server.Api.Redirect | internal/server/server.go:220-240 | by the fields of the rule: a redirect goes to its target and counts a use, or answers gone, missing, a bad request or an internal error, and exactly the counter of that outcome goes up by one |
| Server.LinkGoesToItsTarget | internal/server/server.go:154-240 | a client told of a new link can follow it: over every history that leaves the rule in place, a redirect of the told code goes to the target that was asked for exactly while its time has not come, it has uses left and no cleanup took it, and never goes anywhere else |
| Server.CreationsPerWindow | internal/server/server.go:282-299 | rules created by one client over both routes in any window of length T, those it was not told about included, are at most burst + rate * T |

## Left out

- SQL engines, drivers, connection pools and migrations: a table is a map from code to row; SQLite's single connection makes each operation one step, Postgres has row locks.
- Postgres as objects updated in place: its operations are modelled on values, as steps of a state machine, because many of them are in progress at once.
- Postgres timestamps are exact instants: the rounding of `TIMESTAMPTZ` columns belongs to the server.
- Postgres statements other than a resolve and a cleanup take effect in one step; waiting for a lock is a step that is not enabled.
- PostgresProofs.EveryRunIsSequential: the sequential cleanup takes the rules that the cleanup of the run deleted, which may be fewer than those expired at that moment.
- SqliteStore.Store.CreateRule: covers instants of the years 0 to 9999 only; outside them the format has no four-digit year.
- SqliteStore.Store.ResolveRule: the same range for the current time, because it is written to the row.
- SqliteStore.Store.DeleteExpired: the same range for the current time, because it is compared as text.
- Timestamps.ParseTimeIs: `time.Parse` also takes numeric offsets, fractions beyond nine digits and some looser spellings, which `formatTime` never writes.
- Timestamps.ParseAccepts: the same spellings.
- MemoryLimiter.MemoryLimiter.Allow: the library's `rate.Limiter` is an assumed bucket, and a client's record is a value in the map rather than a shared pointer.
- RedisLimiter.RedisLimiter.RunScript: floating-point rounding and number-to-string conversion in Redis are not modelled; refill times are assumed to fit a 64-bit duration; a run of the script sees one reading of the server's clock.
- Service.Service.CreateRule: runs over the SQLite store, whose other clients act between its inserts without faults, and the URL check is an input.
- Lifecycle.ResolvesWhileItLasts: its cleanups take expired rules only; histories of the SQLite cleanup are those of `ResolvesOnSqlite`.
- Overflow of `used_count` beyond 64 bits.
- HTTP routing, decoding, headers, client addresses, admin authentication, logging, tracing, health checks, configuration loading and process start-up and shutdown.
- `BuildShortURL` and the JSON responses: formatting of values that are modelled.
