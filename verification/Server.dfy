/** The HTTP routes that create and follow rules, on a Redis limiter and a SQLite store. */
module Server {
  import opened KeyedLog
  import opened Lifecycle
  import opened Prelude
  import opened Rules
  import opened SqliteHistory
  import opened TokenBucket
  import Codes
  import RedisLimiter
  import Service
  import SqliteStore
  import Text
  import Timestamps

  datatype Status =
    | Created(rule: Rule)
    | Redirected(url: string)
    | BadRequest
    | Gone
    | Missing
    | Conflict
    | TooManyRequests
    | LimiterUnavailable
    | InternalError

  /** The status a service error is reported with. */
  function StatusOf(error: Error): Status {
    match error
    case Invalid(_) => BadRequest
    case Expired(_, _) => Gone
    case NotFound => Missing
    case AlreadyExists => Conflict
    case Exhausted => InternalError
    case Unavailable => InternalError
  }

  /** The counter a redirect is recorded under. */
  function RedirectOutcome(result: Result<Rule, Error>): string {
    match result
    case Ok(_) => "success"
    case Err(Expired(_, _)) => "expired"
    case Err(NotFound) => "not_found"
    case Err(_) => "error"
  }

  function Count(counters: map<string, nat>, name: string): nat {
    if name in counters then counters[name] else 0
  }

  function Increment(counters: map<string, nat>, name: string): map<string, nat> {
    counters[name := Count(counters, name) + 1]
  }

  /** A run of the limiter's script, and the code of the rule that its request then created, even
      if the client was not told. */
  datatype Call = Call(entry: Entry, created: Option<string>)

  function Entries(log: seq<Call>): (es: seq<Entry>)
    ensures |es| == |log| && forall i :: 0 <= i < |es| ==> es[i] == log[i].entry
  {
    seq(|log|, i requires 0 <= i < |log| => log[i].entry)
  }

  /** Rules created by calls under `key` at times from `from` to `to`. */
  function CreatedIn(log: seq<Call>, key: string, from: int, to: int): nat {
    if log == [] then 0
    else
      var c := log[|log| - 1];
      CreatedIn(log[..|log| - 1], key, from, to)
      + (if c.entry.key == key && c.created.Some? && from <= c.entry.now <= to then 1 else 0)
  }

  /** What a request did to the table: one new rule or nothing; a client is told "created" about
      its own rule, and of a rule it is not told about, "internal error". */
  ghost predicate Creates(before: Table, after: Table, created: Option<string>, status: Status) {
    match created
    case None => after == before && !status.Created?
    case Some(code) =>
      && code in after && Service.AddsRule(before, after, after[code])
      && (status == Created(after[code]) || status == InternalError)
  }

  lemma WhatWasCreated(before: Table, after: Table, result: Result<Rule, Error>) returns (created: Option<string>)
    requires Service.AllOrNothing(before, after, result)
    ensures Creates(before, after, created, if result.Ok? then Created(result.value) else StatusOf(result.error))
  {
    if after == before {
      created := None;
    } else {
      var rule :| Service.AddsRule(before, after, rule) && (result.Ok? ==> rule == result.value);
      assert Service.AddsRule(before, after, rule);
      assert after[rule.code] == rule;
      created := Some(rule.code);
    }
  }

  /** How a request is answered whose rule is inserted under a code: with the rule the table gained,
      or that the code is taken, or that something failed. */
  ghost predicate InsertAnswered(
    input: Service.CreateInput, now: int, found: Table, code: string, fault: Fault, after: Table, status: Status)
  {
    if fault != NoFault then
      && status == InternalError
      && (after == found
          || (code !in found && code in after && after == found[code := after[code]]
              && Service.Carries(after[code], input, now)))
    else if code in found then status == Conflict && after == found
    else
      && status.Created? && after == found[code := status.rule]
      && status.rule.code == code && Service.Carries(status.rule, input, now)
  }

  /** How a request to create a rule is answered. */
  ghost predicate CreationAnswered(
    input: Service.CreateInput, now: int, t: Table, length: nat, attempts: seq<Service.Attempt>, aliasFault: Fault,
    after: Table, status: Status)
    requires Service.AllPossible(attempts, length)
  {
    var alias := Text.TrimSpace(input.alias);
    var n, found := Service.Collisions(t, length, attempts, 0), Service.FoundAtEnd(input, t, length, attempts);
    if !Service.Acceptable(input) then after == t && status == BadRequest
    else if alias != "" then InsertAnswered(input, now, t, alias, aliasFault, after, status)
    else if n == |attempts| then after == found && status == InternalError
    else
      match Codes.GeneratedCode(length, attempts[n].draws)
      case None => after == found && status == InternalError
      case Some(code) => InsertAnswered(input, now, found, code, attempts[n].fault, after, status)
  }

  lemma InsertedIsAnswered(
    input: Service.CreateInput, now: int, found: Table, code: string, fault: Fault, after: Table,
    result: Result<Rule, Error>)
    requires Service.Inserted(input, now, found, code, fault, after, result)
    ensures InsertAnswered(
              input, now, found, code, fault, after,
              if result.Ok? then Created(result.value) else StatusOf(result.error))
  {
  }

  lemma OutcomeIsAnswered(
    input: Service.CreateInput, now: int, t: Table, length: nat, attempts: seq<Service.Attempt>, aliasFault: Fault,
    after: Table, result: Result<Rule, Error>, inserts: nat)
    requires Service.AllPossible(attempts, length)
    requires Service.Outcome(input, now, t, length, attempts, aliasFault, after, result, inserts)
    ensures CreationAnswered(
              input, now, t, length, attempts, aliasFault, after,
              if result.Ok? then Created(result.value) else StatusOf(result.error))
  {
    var alias, n := Text.TrimSpace(input.alias), Service.Collisions(t, length, attempts, 0);
    if Service.Acceptable(input) {
      if alias != "" {
        InsertedIsAnswered(input, now, t, alias, aliasFault, after, result);
      } else if n < |attempts| {
        assert Service.Possible(attempts[n], length);
        var code := Codes.GeneratedCode(length, attempts[n].draws);
        var found := Service.FoundAtEnd(input, t, length, attempts);
        if code.Some? {
          InsertedIsAnswered(input, now, found, code.value, attempts[n].fault, after, result);
        }
      }
    }
  }

  /** How a redirect is answered and recorded, by the fields of the rule that it names. */
  ghost predicate RedirectAnswered(
    t: Table, raw: string, now: int, fault: Fault, after: Table, status: Status, outcome: string)
  {
    var code := Text.TrimSpace(raw);
    if !(4 <= |code| <= 32 && forall c :: c in code ==> c in Codes.ALPHABET) then
      after == t && status == BadRequest && outcome == "error"
    else if fault in {BeginFails, StatementFails} then after == t && status == InternalError && outcome == "error"
    else if code !in t then after == t && status == Missing && outcome == "not_found"
    else
      var rule := t[code];
      var used := rule.(usedCount := rule.usedCount + 1, lastUsedAt := Some(now));
      if || (rule.expiresAt.Some? && rule.expiresAt.value <= now)
         || (rule.maxUsages.Some? && rule.maxUsages.value <= rule.usedCount)
      then after == t && status == Gone && outcome == "expired"
      else if fault.NoFault? then after == t[code := used] && status == Redirected(rule.url) && outcome == "success"
      else
        && status == InternalError && outcome == "error"
        && after == if fault == CommitFails(true) then t[code := used] else t
  }

  lemma RedirectIs(t: Table, raw: string, now: int, fault: Fault)
    ensures var code := Codes.ValidateCode(raw);
            var (after, result) := if code.Err? then (t, Err(code.error)) else TryResolve(t, code.value, now, fault);
            RedirectAnswered(
              t, raw, now, fault, after, if result.Ok? then Redirected(result.value.url) else StatusOf(result.error),
              RedirectOutcome(result))
  {
    Codes.WellFormedIff(Text.TrimSpace(raw));
  }

  /** A counter goes up by one, the others stay. */
  ghost predicate CountsOne(before: map<string, nat>, after: map<string, nat>, name: string) {
    forall other :: Count(after, other) == Count(before, other) + (if other == name then 1 else 0)
  }

  class Api {
    const limiter: RedisLimiter.RedisLimiter
    const service: Service.Service

    var rateLimited: map<string, nat>    // by route
    var redirects: map<string, nat>      // by outcome

    ghost var log: seq<Call>

    constructor (limiter: RedisLimiter.RedisLimiter, service: Service.Service)
      requires limiter.Valid() && limiter.log == [] && service.Valid()
      ensures this.limiter == limiter && this.service == service
      ensures Valid() && log == [] && rateLimited == map[] && redirects == map[]
    {
      this.limiter := limiter;
      this.service := service;
      rateLimited := map[];
      redirects := map[];
      log := [];
    }

    /** Rules are created only by requests that the limiter admitted. */
    ghost predicate Valid()
      reads this, limiter, service, service.store
    {
      && limiter.Valid() && service.Valid()
      && limiter.log == Entries(log)
      && forall i :: 0 <= i < |log| && log[i].created.Some? ==> log[i].entry.allowed
    }

    /** Asks the limiter whether a request may go on. */
    method WithRateLimit(
      route: string, clientIP: string, nowMillis: int, serverMillis: int, delivery: RedisLimiter.Delivery)
      returns (admitted: bool, refusal: Status)
      requires Valid()
      modifies this, limiter
      ensures Valid() && redirects == old(redirects)
      ensures delivery.RequestLost? ==> log == old(log)
      ensures !delivery.RequestLost? ==>
                exists entry ::
                  && log == old(log) + [Call(entry, None)]
                  && entry.key == limiter.Name(clientIP) && entry.now == nowMillis
                  && (delivery.Delivered? ==> admitted == entry.allowed)
      ensures admitted ==> delivery.Delivered?
      ensures !admitted ==> refusal == if delivery.Delivered? then TooManyRequests else LimiterUnavailable
      ensures if !admitted && delivery.Delivered? then CountsOne(old(rateLimited), rateLimited, route)
              else rateLimited == old(rateLimited)
    {
      var allowed := limiter.Allow(clientIP, nowMillis, serverMillis, delivery);
      if !delivery.RequestLost? {
        ghost var entries := limiter.log;
        log := log + [Call(entries[|log|], None)];
        assert entries == Entries(log);
      }
      if allowed.Err? {
        return false, LimiterUnavailable;
      }
      if !allowed.value {
        rateLimited := Increment(rateLimited, route);
        return false, TooManyRequests;
      }
      return true, TooManyRequests;
    }

    /** Notes what the request that the limiter admitted last has created. */
    ghost method Amend(entry: Entry, created: Option<string>)
      requires Valid() && log != [] && log[|log| - 1] == Call(entry, None) && entry.allowed
      modifies this`log
      ensures Valid() && log == old(log[..|log| - 1]) + [Call(entry, created)]
    {
      var entries := Entries(log);
      log := log[..|log| - 1] + [Call(entry, created)];
      assert Entries(log) == entries;
    }

    /** Creates a rule for the request that the limiter admitted last. */
    method CreateRule(
      input: Service.CreateInput, now: int, attempts: seq<Service.Attempt>, aliasFault: Fault,
      ghost entry: Entry)
      returns (status: Status)
      requires Valid() && Service.ClockInRange(now)
      requires log != [] && log[|log| - 1] == Call(entry, None) && entry.allowed
      requires |attempts| == Service.ATTEMPTS && Service.AllPossible(attempts, service.codeLength)
      modifies this`log, service.store
      ensures Valid()
      ensures CreationAnswered(
                input, now, old(service.store.table), service.codeLength, attempts, aliasFault, service.store.table,
                status)
      ensures exists created ::
                && log == old(log[..|log| - 1]) + [Call(entry, created)]
                && Creates(
                     Service.FoundAtEnd(input, old(service.store.table), service.codeLength, attempts),
                     service.store.table, created, status)
      ensures status != TooManyRequests && status != LimiterUnavailable
    {
      ghost var t := service.store.table;
      var result, inserts := service.CreateRule(input, now, attempts, aliasFault);
      ghost var created := WhatWasCreated(
        Service.FoundAtEnd(input, t, service.codeLength, attempts), service.store.table, result);
      OutcomeIsAnswered(
        input, now, t, service.codeLength, attempts, aliasFault, service.store.table, result, inserts);
      Amend(entry, created);
      if result.Err? {
        return StatusOf(result.error);
      }
      return Created(result.value);
    }

    /** Both generation routes: the limiter is asked first, and only an admitted request goes on
        to create a rule. */
    method Generate(
      route: string, clientIP: string, input: Service.CreateInput, nowMillis: int, serverMillis: int,
      delivery: RedisLimiter.Delivery, now: int, attempts: seq<Service.Attempt>, aliasFault: Fault)
      returns (status: Status)
      requires Valid() && Service.ClockInRange(now)
      requires |attempts| == Service.ATTEMPTS && Service.AllPossible(attempts, service.codeLength)
      modifies this, limiter, service.store
      ensures Valid() && redirects == old(redirects)
      ensures delivery.RequestLost? ==> log == old(log) && service.store.table == old(service.store.table)
      ensures !delivery.RequestLost? ==>
                exists entry, created ::
                  && log == old(log) + [Call(entry, created)]
                  && entry.key == limiter.Name(clientIP) && entry.now == nowMillis
                  && (delivery.Delivered? ==> (status == TooManyRequests <==> !entry.allowed))
                  && if delivery.Delivered? && entry.allowed then
                       && CreationAnswered(
                            input, now, old(service.store.table), service.codeLength, attempts, aliasFault,
                            service.store.table, status)
                       && Creates(
                            Service.FoundAtEnd(input, old(service.store.table), service.codeLength, attempts),
                            service.store.table, created, status)
                     else created == None && service.store.table == old(service.store.table)
      ensures status == LimiterUnavailable <==> !delivery.Delivered?
      ensures if status == TooManyRequests then CountsOne(old(rateLimited), rateLimited, route)
              else rateLimited == old(rateLimited)
    {
      var admitted, refusal := WithRateLimit(route, clientIP, nowMillis, serverMillis, delivery);
      if !admitted {
        return refusal;
      }
      status := CreateRule(input, now, attempts, aliasFault, log[|log| - 1].entry);
    }

    /** Follows a short link, and counts the outcome. */
    method Redirect(raw: string, now: int, fault: Fault) returns (status: Status)
      requires Valid() && Timestamps.InRange(now)
      modifies this, service.store
      ensures Valid() && log == old(log) && rateLimited == old(rateLimited)
      ensures exists outcome ::
                && RedirectAnswered(old(service.store.table), raw, now, fault, service.store.table, status, outcome)
                && CountsOne(old(redirects), redirects, outcome)
    {
      RedirectIs(service.store.table, raw, now, fault);
      var result := service.ResolveRule(raw, now, fault);
      if result.Err? {
        if result.error.Expired? {
          redirects := Increment(redirects, "expired");
        } else if result.error.NotFound? {
          redirects := Increment(redirects, "not_found");
        } else {
          redirects := Increment(redirects, "error");
        }
        return StatusOf(result.error);
      }
      redirects := Increment(redirects, "success");
      return Redirected(result.value.url);
    }
  }

  // ---------------------------------------------------------------- end to end

  /** Where in the log the calls are that created a rule. */
  ghost function CreatedAt(log: seq<Call>, key: string, from: int, to: int): set<int> {
    set i | 0 <= i < |log| && log[i].entry.key == key && log[i].created.Some? && from <= log[i].entry.now <= to
  }

  lemma CreatedAtNext(log: seq<Call>, key: string, from: int, to: int)
    requires log != []
    ensures var n := |log| - 1;
            var e := log[n].entry;
            CreatedAt(log, key, from, to)
            == CreatedAt(log[..n], key, from, to)
               + (if e.key == key && log[n].created.Some? && from <= e.now <= to then {n} else {})
  {
  }

  lemma {:induction false} CreatedInCounts(log: seq<Call>, key: string, from: int, to: int)
    ensures CreatedIn(log, key, from, to) == |CreatedAt(log, key, from, to)|
  {
    if log != [] {
      CreatedInCounts(log[..|log| - 1], key, from, to);
      CreatedAtNext(log, key, from, to);
    }
  }

  lemma NewRuleIsStorable(rule: Rule, input: Service.CreateInput, now: int)
    requires Service.Carries(rule, input, now) && Service.ClockInRange(now)
    ensures SqliteStore.Storable(rule)
  {
  }

  /** A client that is told of a new link can follow it: over every history that leaves the rule in
      place, a redirect of the code it was told goes to the target it asked for, as long as the
      rule's time has not come, it has uses left and no cleanup has taken it; and a redirect of that
      code never goes anywhere else. */
  lemma LinkGoesToItsTarget(
    input: Service.CreateInput, created: int, t: Table, length: nat, attempts: seq<Service.Attempt>, aliasFault: Fault,
    after: Table, rule: Rule, es: seq<Event>, now: int, fault: Fault, end: Table, status: Status, outcome: string)
    requires Service.ClockInRange(created) && Service.AllPossible(attempts, length) && Service.AllReachable(after)
    requires CreationAnswered(input, created, t, length, attempts, aliasFault, after, Created(rule))
    requires AllTimely(es) && LeavesInPlace(es, rule.code, 0, |es|)
    requires RedirectAnswered(TextAfter(after, es, |es|), rule.code, now, fault, end, status, outcome)
    ensures rule.code in after && after[rule.code] == rule && SqliteStore.Storable(rule)
    ensures input.target.Some? && (status.Redirected? ==> status.url == input.target.value)
    ensures fault.NoFault? ==>
              (status.Redirected?
               <==> && Lasts(rule, now, TextUses(after, es, rule.code, 0, |es|))
                    && !TextTaken(es, rule, 0, |es|))
  {
    CreatedRuleIsThere(input, created, t, length, attempts, aliasFault, after, rule);
    NewRuleIsStorable(rule, input, created);
    FollowIs(after, rule, es, now, fault, end, status, outcome);
  }

  lemma CreatedRuleIsThere(
    input: Service.CreateInput, created: int, t: Table, length: nat, attempts: seq<Service.Attempt>, aliasFault: Fault,
    after: Table, rule: Rule)
    requires Service.AllPossible(attempts, length)
    requires CreationAnswered(input, created, t, length, attempts, aliasFault, after, Created(rule))
    ensures rule.code in after && after[rule.code] == rule && Service.Carries(rule, input, created)
  {
  }

  lemma FollowIs(
    t: Table, rule: Rule, es: seq<Event>, now: int, fault: Fault, end: Table, status: Status, outcome: string)
    requires rule.code in t && t[rule.code] == rule && SqliteStore.Storable(rule) && Service.AllReachable(t)
    requires AllTimely(es) && LeavesInPlace(es, rule.code, 0, |es|)
    requires RedirectAnswered(TextAfter(t, es, |es|), rule.code, now, fault, end, status, outcome)
    ensures status.Redirected? ==> status.url == rule.url
    ensures fault.NoFault? ==>
              (status.Redirected?
               <==> Lasts(rule, now, TextUses(t, es, rule.code, 0, |es|)) && !TextTaken(es, rule, 0, |es|))
  {
    Codes.WellFormedIff(rule.code);
    Codes.WellFormedIsFixed(rule.code);
    TextRuleIsTraced(t, es, rule.code, 0, |es|);
  }

  lemma {:induction false} CreatedAreAllowed(log: seq<Call>, key: string, from: int, to: int)
    requires forall i :: 0 <= i < |log| && log[i].created.Some? ==> log[i].entry.allowed
    ensures CreatedIn(log, key, from, to) <= AllowedIn(Entries(log), key, from, to)
  {
    if log != [] {
      CreatedAreAllowed(log[..|log| - 1], key, from, to);
      assert Entries(log)[..|log| - 1] == Entries(log[..|log| - 1]);
    }
  }

  lemma CreationsInLog(
    log: seq<Call>, skew: RedisLimiter.Skew, db: map<string, RedisLimiter.Hash>, perMinute: real, burst: int,
    ttl: int, key: string, from: int, to: int)
    requires perMinute > 0.0 && burst > 0 && from <= to
    requires RedisLimiter.Reflects(
               RedisLimiter.Configured(perMinute, burst), RedisLimiter.ExpiryMillis(ttl, perMinute, burst), skew, db,
               Entries(log))
    requires forall i :: 0 <= i < |log| && log[i].created.Some? ==> log[i].entry.allowed
    requires Nondecreasing(Entries(log))
    requires RedisLimiter.ExpiryIsLongEnough(ttl, perMinute, burst, RedisLimiter.Jitter(skew))
    ensures CreatedIn(log, key, from, to) as real
         <= burst as real + Credit(RedisLimiter.Configured(perMinute, burst), to - from)
  {
    RedisLimiter.AdmissionsOfName(ttl, perMinute, burst, skew, db, Entries(log), key, from, to);
    CreatedAreAllowed(log, key, from, to);
  }

  /** One client, over both routes together, creates at most burst + rate * T rules in any window
      of length T (in milliseconds), when the limiter's keys are kept until a bucket refills. */
  lemma CreationsPerWindow(
    api: Api, perMinute: real, burst: int, ttl: int, clientIP: string, from: int, to: int)
    requires perMinute > 0.0 && burst > 0 && from <= to
    requires api.limiter.Rate() == RedisLimiter.Configured(perMinute, burst)
    requires api.limiter.stateTTL == RedisLimiter.StateTTL(ttl, perMinute, burst)
    requires RedisLimiter.ExpiryIsLongEnough(ttl, perMinute, burst, RedisLimiter.Jitter(api.limiter.skew))
    requires api.Valid() && Nondecreasing(Entries(api.log))
    ensures CreatedIn(api.log, api.limiter.Name(clientIP), from, to) as real
         <= burst as real + (to - from) as real * perMinute / 60_000.0
  {
    RedisLimiter.CreditPerMinute(perMinute, burst, to - from);
    CreationsInLog(
      api.log, api.limiter.skew, api.limiter.db, perMinute, burst, ttl, api.limiter.Name(clientIP), from, to);
  }
}
