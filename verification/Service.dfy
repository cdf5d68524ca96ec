/** The service: it turns requests into rules and keeps them in a store. */
module Service {
  import opened Codes
  import opened Lifecycle
  import opened Prelude
  import opened Rules
  import opened SqliteHistory
  import SqliteStore
  import Text
  import Timestamps

  const ATTEMPTS: nat := 10
  const MIN_INT64 := -0x8000_0000_0000_0000
  const MAX_INT64 := 0x7FFF_FFFF_FFFF_FFFF

  /** A request for a rule; `target` is the URL as the check accepts it, if it does. */
  datatype CreateInput = CreateInput(target: Option<string>, alias: string, ttlSeconds: int, maxUsages: int)

  /** What happens outside the service on one attempt to insert a generated code; `meanwhile` is what
      other clients of the store do since the attempt before. */
  datatype Attempt = Attempt(draws: seq<Option<nat>>, fault: Fault, meanwhile: seq<Event>)

  // ---------------------------------------------------------------- from request to rule

  /** Arithmetic on 64-bit signed integers wraps around. */
  function Wrap64(x: int): (r: int)
    ensures MIN_INT64 <= r <= MAX_INT64
  {
    (x - MIN_INT64) % 0x1_0000_0000_0000_0000 + MIN_INT64
  }

  /** A time to live as a duration in nanoseconds. */
  function DurationOf(ttlSeconds: int): int {
    Wrap64(ttlSeconds * Timestamps.SECOND)
  }

  function RuleFromInput(input: CreateInput, now: int): Result<Rule, Error> {
    if input.target.None? then Err(Invalid("url"))
    else if NormalizeAlias(input.alias).Err? then Err(NormalizeAlias(input.alias).error)
    else if input.ttlSeconds < 0 then Err(Invalid("ttl_seconds"))
    else if input.maxUsages < 0 then Err(Invalid("max_usages"))
    else
      Ok(Rule(
           NormalizeAlias(input.alias).value,
           input.target.value,
           now,
           if input.ttlSeconds > 0 then Some(now + DurationOf(input.ttlSeconds)) else None,
           if input.maxUsages > 0 then Some(input.maxUsages) else None,
           0,
           None))
  }

  /** Wrapping changes nothing exactly within the 64-bit range. */
  lemma WrapIsExactIff(x: int)
    ensures Wrap64(x) == x <==> MIN_INT64 <= x <= MAX_INT64
    ensures exists k :: Wrap64(x) == x + k * 0x1_0000_0000_0000_0000
  {
    var y := x - MIN_INT64;
    var k := y / 0x1_0000_0000_0000_0000;
    assert y == k * 0x1_0000_0000_0000_0000 + y % 0x1_0000_0000_0000_0000;
    assert Wrap64(x) == x + (-k) * 0x1_0000_0000_0000_0000;
  }

  lemma WrapIsCongruent(x: int)
    ensures (Wrap64(x) - x) % 0x1_0000_0000_0000_0000 == 0
  {
    var y := x - MIN_INT64;
    assert Wrap64(x) - x == -(y / 0x1_0000_0000_0000_0000) * 0x1_0000_0000_0000_0000;
  }

  // ---------------------------------------------------------------- what a request asks for

  /** Requests that are accepted: the target is, the alias is blank or has 4 to 32 letters of the
      alphabet, and neither number is negative. */
  predicate Acceptable(input: CreateInput) {
    var alias := Text.TrimSpace(input.alias);
    && input.target.Some? && input.ttlSeconds >= 0 && input.maxUsages >= 0
    && (alias == "" || (4 <= |alias| <= 32 && forall c :: c in alias ==> c in ALPHABET))
  }

  /** The first field of a request that is refused. */
  function RefusedField(input: CreateInput): string
    requires !Acceptable(input)
  {
    var alias := Text.TrimSpace(input.alias);
    if input.target.None? then "url"
    else if alias != "" && !(4 <= |alias| <= 32 && forall c :: c in alias ==> c in ALPHABET) then "alias"
    else if input.ttlSeconds < 0 then "ttl_seconds"
    else "max_usages"
  }

  /** A new rule has what its request asked for: the target, the alias if there was one, the limit,
      and an expiry a TTL after its creation, as far as 64 bits of nanoseconds count. */
  predicate Carries(rule: Rule, input: CreateInput, now: int) {
    && input.target == Some(rule.url) && rule.createdAt == now && rule.usedCount == 0 && rule.lastUsedAt.None?
    && (Text.TrimSpace(input.alias) != "" ==> rule.code == Text.TrimSpace(input.alias))
    && (if input.maxUsages == 0 then rule.maxUsages.None? else rule.maxUsages == Some(input.maxUsages))
    && if input.ttlSeconds == 0 then rule.expiresAt.None?
       else
         && rule.expiresAt.Some?
         && var lasts := rule.expiresAt.value - now;
            && (lasts - input.ttlSeconds * 1_000_000_000) % 0x1_0000_0000_0000_0000 == 0
            && -0x8000_0000_0000_0000 <= lasts < 0x8000_0000_0000_0000
  }

  /** Exactly the acceptable requests make a rule, and it carries what they ask for; the others are
      told which field is wrong. */
  lemma RuleFromInputIs(input: CreateInput, now: int)
    ensures RuleFromInput(input, now).Ok? <==> Acceptable(input)
    ensures Acceptable(input) ==>
              var rule := RuleFromInput(input, now).value;
              Carries(rule, input, now) && rule.code == Text.TrimSpace(input.alias)
    ensures !Acceptable(input) ==> RuleFromInput(input, now) == Err(Invalid(RefusedField(input)))
  {
    WellFormedIff(Text.TrimSpace(input.alias));
    WrapIsCongruent(input.ttlSeconds * Timestamps.SECOND);
  }

  /** A rule expires at creation time plus TTL exactly when the TTL is at most 9223372036 seconds. */
  lemma ExpiryIsExactIff(input: CreateInput, now: int)
    requires RuleFromInput(input, now).Ok? && 0 < input.ttlSeconds
    ensures RuleFromInput(input, now).value.expiresAt == Some(now + input.ttlSeconds * Timestamps.SECOND)
            <==> input.ttlSeconds <= 9_223_372_036
  {
    WrapIsExactIff(input.ttlSeconds * Timestamps.SECOND);
  }

  /** In every history that leaves a new rule alone, with no cleanup ahead of the resolve's time, a
      resolve succeeds exactly when the rule's TTL, as a 64-bit duration, has not passed and fewer
      uses were made of it than it was created for. */
  lemma NewRuleResolvesWhileItLasts(
    input: CreateInput, now: int, t: Table, code: string, es: seq<Event>, n: nat)
    requires RuleFromInput(input, now).Ok?
    requires code in t && t[code] == RuleFromInput(input, now).value.(code := code)
    requires n < |es| && es[n].op == Visit(code) && LeavesAlone(es, code, 0, n) && CleanedInTime(es, 0, n, code)
    ensures ReplyTo(t, es, n, true).Given?
            <==> && (input.ttlSeconds > 0 ==> es[n].now < now + DurationOf(input.ttlSeconds))
                 && (input.maxUsages > 0 ==> Uses(t, es, code, 0, n) < input.maxUsages)
  {
    ResolvesUntilItExpires(t, es, code, 0, n);
  }

  /** Whatever else happens, as long as the rule is left alone it resolves at the times before
      `expiry` and at no other. */
  ghost predicate ResolvesExactlyUntil(t: Table, code: string, expiry: int) {
    forall es: seq<Event>, n {:trigger ReplyTo(t, es, n, true)} ::
      0 <= n < |es| && es[n].op == Visit(code) && LeavesAlone(es, code, 0, n) && CleanedInTime(es, 0, n, code) ==>
        (ReplyTo(t, es, n, true).Given? <==> es[n].now < expiry)
  }

  /** Without a usage limit, a new rule resolves exactly until its TTL has passed, when and only
      when the TTL is at most 9223372036 seconds. */
  lemma ResolvesForItsTTLIff(input: CreateInput, now: int, t: Table, code: string)
    requires RuleFromInput(input, now).Ok? && input.ttlSeconds > 0 && input.maxUsages == 0
    requires code in t && t[code] == RuleFromInput(input, now).value.(code := code)
    ensures ResolvesExactlyUntil(t, code, now + input.ttlSeconds * Timestamps.SECOND)
            <==> input.ttlSeconds <= 9_223_372_036
  {
    var wanted, actual := now + input.ttlSeconds * Timestamps.SECOND, now + DurationOf(input.ttlSeconds);
    ExpiryIsExactIff(input, now);
    forall es: seq<Event>, n |
      0 <= n < |es| && es[n].op == Visit(code) && LeavesAlone(es, code, 0, n) && CleanedInTime(es, 0, n, code)
      ensures ReplyTo(t, es, n, true).Given? <==> es[n].now < actual
    {
      NewRuleResolvesWhileItLasts(input, now, t, code, es, n);
    }
    if wanted != actual {
      var visit := [Event(if wanted < actual then wanted else actual, Visit(code), false)];
      assert LeavesAlone(visit, code, 0, 0) && CleanedInTime(visit, 0, 0, code);
      assert ReplyTo(t, visit, 0, true).Given? <==> visit[0].now < actual;
    }
  }

  /** The TTL lies in the `k`th band of lengths that wrap around to the past. */
  predicate InWrappedBand(ttlSeconds: int, k: nat) {
    var start := k * 0x1_0000_0000_0000_0000;
    start + 0x8000_0000_0000_0000 <= ttlSeconds * Timestamps.SECOND <= start + 0x1_0000_0000_0000_0000
  }

  /** A rule has expired when it is created exactly when its TTL lies in such a band; the first band
      is 9223372037 to 18446744073 seconds. */
  lemma BornExpiredIff(input: CreateInput, now: int)
    requires RuleFromInput(input, now).Ok?
    ensures IsExpired(RuleFromInput(input, now).value, now) <==> exists k :: InWrappedBand(input.ttlSeconds, k)
    ensures InWrappedBand(input.ttlSeconds, 0) <==> 9_223_372_037 <= input.ttlSeconds <= 18_446_744_073
  {
    var x := input.ttlSeconds * Timestamps.SECOND;
    var q := (x - MIN_INT64) / 0x1_0000_0000_0000_0000;
    assert x - MIN_INT64 == q * 0x1_0000_0000_0000_0000 + (x - MIN_INT64) % 0x1_0000_0000_0000_0000;
    if IsExpired(RuleFromInput(input, now).value, now) {
      assert InWrappedBand(input.ttlSeconds, q - 1);
    }
    if k: nat :| InWrappedBand(input.ttlSeconds, k) {
      assert q == k + 1;
    }
  }

  // ---------------------------------------------------------------- the service

  /** Clocks that stay 293 years clear of both ends of the four-digit years. */
  predicate ClockInRange(now: int) {
    Timestamps.InRange(now + MIN_INT64) && Timestamps.InRange(now + MAX_INT64)
  }

  /** Every rule can be named by its own code. */
  predicate AllReachable(t: Table) {
    forall code :: code in t ==> WellFormed(code)
  }

  /** An attempt that finds its code taken. */
  predicate Collides(t: Table, length: nat, a: Attempt)
    requires Draws(a.draws, length)
  {
    var code := GeneratedCode(length, a.draws);
    a.fault.NoFault? && code.Some? && code.value in t
  }

  /** The table gains one rule, under a code that was free. */
  ghost predicate AddsRule(before: Table, after: Table, rule: Rule) {
    rule.code !in before && after == before[rule.code := rule]
  }

  /** Creation adds one rule, under a free code, or changes nothing; it may add the rule and report a
      failure when the confirmation is lost. */
  ghost predicate AllOrNothing(before: Table, after: Table, result: Result<Rule, Error>) {
    if after == before then result.Err?
    else
      && (result.Err? ==> result.error == Unavailable)
      && exists rule :: AddsRule(before, after, rule) && (result.Ok? ==> rule == result.value)
  }

  /** Enough draws for one code, and operations of other clients that the store and the service
      allow. */
  ghost predicate Possible(a: Attempt, length: nat) {
    && Draws(a.draws, length) && AllTimely(a.meanwhile)
    && forall i :: 0 <= i < |a.meanwhile| && a.meanwhile[i].op.Create? ==> WellFormed(a.meanwhile[i].op.rule.code)
  }

  ghost predicate AllPossible(attempts: seq<Attempt>, length: nat) {
    forall i :: 0 <= i < |attempts| ==> Possible(attempts[i], length)
  }

  /** The table after what other clients do in the first `n` attempts; attempt `i` finds the table
      for `i + 1`. */
  function FoundBy(t: Table, length: nat, attempts: seq<Attempt>, n: nat): Table
    requires n <= |attempts| && AllPossible(attempts, length)
  {
    if n == 0 then t
    else TextAfter(FoundBy(t, length, attempts, n - 1), attempts[n - 1].meanwhile, |attempts[n - 1].meanwhile|)
  }

  /** How many attempts find their codes taken before the first that does not. */
  function Collisions(t: Table, length: nat, attempts: seq<Attempt>, from: nat): (n: nat)
    requires from <= |attempts| && AllPossible(attempts, length)
    ensures from <= n <= |attempts|
    ensures forall i :: from <= i < n ==> Collides(FoundBy(t, length, attempts, i + 1), length, attempts[i])
    ensures n < |attempts| ==> !Collides(FoundBy(t, length, attempts, n + 1), length, attempts[n])
    decreases |attempts| - from
  {
    if from == |attempts| || !Collides(FoundBy(t, length, attempts, from + 1), length, attempts[from]) then from
    else Collisions(t, length, attempts, from + 1)
  }

  /** The table that the last insert of a creation finds. */
  function FoundAtEnd(input: CreateInput, t: Table, length: nat, attempts: seq<Attempt>): Table
    requires AllPossible(attempts, length)
  {
    if !Acceptable(input) || Text.TrimSpace(input.alias) != "" then t
    else
      var n := Collisions(t, length, attempts, 0);
      FoundBy(t, length, attempts, if n < |attempts| then n + 1 else n)
  }

  lemma OperationKeepsReachable(t: Table, now: int, op: Op)
    requires Timely(now, op) && AllReachable(t) && (op.Create? ==> WellFormed(op.rule.code))
    ensures AllReachable(TextApply(t, now, op).0)
  {
  }

  lemma {:induction false} OthersKeepReachable(t: Table, es: seq<Event>, n: nat)
    requires n <= |es| && AllTimely(es) && AllReachable(t)
    requires forall i :: 0 <= i < |es| && es[i].op.Create? ==> WellFormed(es[i].op.rule.code)
    ensures AllReachable(TextAfter(t, es, n))
  {
    if n > 0 {
      OthersKeepReachable(t, es, n - 1);
      OperationKeepsReachable(TextAfter(t, es, n - 1), es[n - 1].now, es[n - 1].op);
    }
  }

  /** One attempt at a rule under a generated code, and how many inserts it made. */
  function Tried(rule: Rule, t: Table, length: nat, a: Attempt): (Table, Result<Rule, Error>, nat)
    requires Possible(a, length)
  {
    var found := TextAfter(t, a.meanwhile, |a.meanwhile|);
    match GeneratedCode(length, a.draws)
    case None => (found, Err(Unavailable), 0)
    case Some(code) =>
      var (after, result) := TryInsert(found, rule.(code := code), a.fault);
      (after, result, 1)
  }

  /** An attempt is repeated exactly when it finds its code taken. */
  lemma TriedAgainIff(rule: Rule, t: Table, length: nat, a: Attempt)
    requires Possible(a, length)
    ensures var found := TextAfter(t, a.meanwhile, |a.meanwhile|);
            var (after, result, inserts) := Tried(rule, t, length, a);
            && (result == Err(AlreadyExists) <==> Collides(found, length, a))
            && (Collides(found, length, a) ==> after == found && inserts == 1)
  {
  }

  /** What attempts come to when the first `n` of them collide and the next does not. */
  predicate EndsAt(
    rule: Rule, t: Table, length: nat, attempts: seq<Attempt>, n: nat, end: Table, result: Result<Rule, Error>,
    inserts: nat)
    requires n <= |attempts| && AllPossible(attempts, length)
  {
    var before := FoundBy(t, length, attempts, n);
    if n == |attempts| then (end, result, inserts) == (before, Err(Exhausted), n)
    else
      var (after, answer, inserted) := Tried(rule, before, length, attempts[n]);
      (end, result, inserts) == (after, answer, n + inserted)
  }

  /** What an insert of the requested rule under a code does and answers. */
  ghost predicate Inserted(
    input: CreateInput, now: int, found: Table, code: string, fault: Fault, after: Table, result: Result<Rule, Error>)
  {
    if code in found then after == found && result == Err(if fault.NoFault? then AlreadyExists else Unavailable)
    else if fault.NoFault? then
      && result.Ok? && after == found[code := result.value]
      && result.value.code == code && Carries(result.value, input, now)
    else
      && result == Err(Unavailable)
      && if fault != CommitFails(true) then after == found
         else
           && code in after && after == found[code := after[code]]
           && after[code].code == code && Carries(after[code], input, now)
  }

  lemma InsertIs(input: CreateInput, now: int, found: Table, code: string, fault: Fault)
    requires Acceptable(input) && RuleFromInput(input, now).Ok?
    requires Text.TrimSpace(input.alias) in {"", code}
    ensures var (after, result) := TryInsert(found, RuleFromInput(input, now).value.(code := code), fault);
            Inserted(input, now, found, code, fault, after, result)
  {
    RuleFromInputIs(input, now);
  }

  /** What a creation does and answers, in all. */
  ghost predicate Outcome(
    input: CreateInput, now: int, t: Table, length: nat, attempts: seq<Attempt>, aliasFault: Fault,
    after: Table, result: Result<Rule, Error>, inserts: nat)
    requires AllPossible(attempts, length)
  {
    var alias := Text.TrimSpace(input.alias);
    var n, found := Collisions(t, length, attempts, 0), FoundAtEnd(input, t, length, attempts);
    if !Acceptable(input) then after == t && result == Err(Invalid(RefusedField(input))) && inserts == 0
    else if alias != "" then Inserted(input, now, t, alias, aliasFault, after, result) && inserts == 1
    else if n == |attempts| then after == found && result == Err(Exhausted) && inserts == n
    else
      match GeneratedCode(length, attempts[n].draws)
      case None => after == found && result == Err(Unavailable) && inserts == n
      case Some(code) => Inserted(input, now, found, code, attempts[n].fault, after, result) && inserts == n + 1
  }

  /** How a creation under a generated code ends. */
  lemma CreatedUnderCode(
    input: CreateInput, now: int, t: Table, length: nat, attempts: seq<Attempt>, aliasFault: Fault, end: Table,
    result: Result<Rule, Error>, inserts: nat)
    requires RuleFromInput(input, now).Ok? && RuleFromInput(input, now).value.code == ""
    requires AllPossible(attempts, length)
    requires EndsAt(
               RuleFromInput(input, now).value, t, length, attempts, Collisions(t, length, attempts, 0), end, result,
               inserts)
    ensures Outcome(input, now, t, length, attempts, aliasFault, end, result, inserts)
  {
    RuleFromInputIs(input, now);
    var n, found := Collisions(t, length, attempts, 0), FoundAtEnd(input, t, length, attempts);
    if n < |attempts| {
      assert Possible(attempts[n], length);
      var code := GeneratedCode(length, attempts[n].draws);
      if code.Some? {
        InsertIs(input, now, found, code.value, attempts[n].fault);
      }
    }
  }

  lemma InsertedIsAllOrNothing(
    input: CreateInput, now: int, found: Table, code: string, fault: Fault, after: Table, result: Result<Rule, Error>)
    requires Inserted(input, now, found, code, fault, after, result)
    ensures AllOrNothing(found, after, result)
  {
    if after != found {
      assert AddsRule(found, after, after[code]);
    }
  }

  /** At most one insert of a creation takes effect. */
  lemma OutcomeIsAllOrNothing(
    input: CreateInput, now: int, t: Table, length: nat, attempts: seq<Attempt>, aliasFault: Fault,
    after: Table, result: Result<Rule, Error>, inserts: nat)
    requires AllPossible(attempts, length)
    requires Outcome(input, now, t, length, attempts, aliasFault, after, result, inserts)
    ensures AllOrNothing(FoundAtEnd(input, t, length, attempts), after, result)
  {
    var alias, n := Text.TrimSpace(input.alias), Collisions(t, length, attempts, 0);
    if Acceptable(input) {
      if alias != "" {
        InsertedIsAllOrNothing(input, now, t, alias, aliasFault, after, result);
      } else if n < |attempts| {
        assert Possible(attempts[n], length);
        var code, found := GeneratedCode(length, attempts[n].draws), FoundAtEnd(input, t, length, attempts);
        if code.Some? {
          InsertedIsAllOrNothing(input, now, found, code.value, attempts[n].fault, after, result);
        }
      }
    }
  }

  class Service {
    const store: SqliteStore.Store
    const codeLength: nat

    constructor (store: SqliteStore.Store, codeLength: nat)
      requires store.Valid() && AllReachable(store.table) && 4 <= codeLength <= 16
      ensures this.store == store && this.codeLength == codeLength && Valid()
    {
      this.store := store;
      this.codeLength := codeLength;
    }

    ghost predicate Valid()
      reads this, store
    {
      store.Valid() && AllReachable(store.table) && 4 <= codeLength <= 16
    }

    /** What other clients of the store do in the meantime. */
    method Others(es: seq<Event>)
      requires Valid() && AllTimely(es)
      requires forall i :: 0 <= i < |es| && es[i].op.Create? ==> WellFormed(es[i].op.rule.code)
      modifies store
      ensures Valid() && store.table == TextAfter(old(store.table), es, |es|)
    {
      OthersKeepReachable(store.table, es, |es|);
      PerformAll(store, es);
    }

    /** One attempt to insert a rule under a generated code. */
    method TryCode(rule: Rule, a: Attempt) returns (result: Result<Rule, Error>, inserts: nat)
      requires Valid() && Possible(a, codeLength) && SqliteStore.Storable(rule)
      modifies store
      ensures Valid() && (store.table, result, inserts) == Tried(rule, old(store.table), codeLength, a)
    {
      Others(a.meanwhile);
      var code := Generate(codeLength, a.draws);
      if code.Err? {
        return Err(Unavailable), 0;
      }
      LettersAreWellFormed(code.value);
      result := store.CreateRule(rule.(code := code.value), a.fault);
      inserts := 1;
    }

    /** Up to ten tries. */
    method TryCodes(rule: Rule, attempts: seq<Attempt>) returns (result: Result<Rule, Error>, inserts: nat)
      requires Valid() && SqliteStore.Storable(rule) && |attempts| == ATTEMPTS && AllPossible(attempts, codeLength)
      modifies store
      ensures Valid()
      ensures var n := Collisions(old(store.table), codeLength, attempts, 0);
              EndsAt(rule, old(store.table), codeLength, attempts, n, store.table, result, inserts)
    {
      inserts := 0;
      for i := 0 to ATTEMPTS
        invariant Valid() && store.table == FoundBy(old(store.table), codeLength, attempts, i)
        invariant inserts == i
        invariant Collisions(old(store.table), codeLength, attempts, 0)
               == Collisions(old(store.table), codeLength, attempts, i)
      {
        assert Possible(attempts[i], codeLength);
        TriedAgainIff(rule, store.table, codeLength, attempts[i]);
        var created, inserted := TryCode(rule, attempts[i]);
        inserts := inserts + inserted;
        if created == Err(AlreadyExists) {
          continue;
        }
        return created, inserts;
      }
      return Err(Exhausted), inserts;
    }

    /** Creates a rule under the requested alias, or under a generated code with up to ten tries. */
    method CreateRule(input: CreateInput, now: int, attempts: seq<Attempt>, aliasFault: Fault)
      returns (result: Result<Rule, Error>, inserts: nat)
      requires Valid() && ClockInRange(now)
      requires |attempts| == ATTEMPTS && AllPossible(attempts, codeLength)
      modifies store
      ensures Valid()
      ensures Outcome(
                input, now, old(store.table), codeLength, attempts, aliasFault, store.table, result, inserts)
      ensures AllOrNothing(FoundAtEnd(input, old(store.table), codeLength, attempts), store.table, result)
      ensures inserts <= 10 && (result == Err(Exhausted) ==> inserts == 10)
    {
      inserts := 0;
      ghost var before := store.table;
      RuleFromInputIs(input, now);
      var wanted := RuleFromInput(input, now);
      if wanted.Err? {
        return Err(wanted.error), 0;
      }
      var rule := wanted.value;
      if rule.code != "" {
        InsertIs(input, now, store.table, rule.code, aliasFault);
        result := store.CreateRule(rule, aliasFault);
        inserts := 1;
      } else {
        result, inserts := TryCodes(rule, attempts);
        CreatedUnderCode(input, now, before, codeLength, attempts, aliasFault, store.table, result, inserts);
      }
      OutcomeIsAllOrNothing(
        input, now, before, codeLength, attempts, aliasFault, store.table, result, inserts);
    }

    method GetRule(raw: string, fault: Fault) returns (result: Result<Rule, Error>)
      requires Valid()
      ensures result == match ValidateCode(raw)
                        case Err(e) => Err(e)
                        case Ok(code) => if fault.NoFault? then Get(store.table, code) else Err(Unavailable)
    {
      var code := ValidateCode(raw);
      if code.Err? {
        return Err(code.error);
      }
      result := store.GetRule(code.value, fault);
    }

    method DeleteRule(raw: string, fault: Fault) returns (result: Result<(), Error>)
      requires Valid()
      modifies store
      ensures Valid()
      ensures match ValidateCode(raw)
              case Err(e) => result == Err(e) && store.table == old(store.table)
              case Ok(code) => (store.table, result) == TryDelete(old(store.table), code, fault)
    {
      var code := ValidateCode(raw);
      if code.Err? {
        return Err(code.error);
      }
      result := store.DeleteRule(code.value, fault);
    }

    method ResolveRule(raw: string, now: int, fault: Fault) returns (result: Result<Rule, Error>)
      requires Valid() && Timestamps.InRange(now)
      modifies store
      ensures Valid()
      ensures match ValidateCode(raw)
              case Err(e) => result == Err(e) && store.table == old(store.table)
              case Ok(code) => (store.table, result) == TryResolve(old(store.table), code, now, fault)
    {
      var code := ValidateCode(raw);
      if code.Err? {
        return Err(code.error);
      }
      result := store.ResolveRule(code.value, now, fault);
    }

    method DeleteExpired(now: int, fault: Fault) returns (result: Result<nat, Error>)
      requires Valid() && Timestamps.InRange(now)
      modifies store
      ensures Valid()
      ensures var picked := SqliteStore.PickedCodes(old(store.table), now);
              && store.table == (if Applies(fault) then old(store.table) - picked else old(store.table))
              && result == Confirm(fault, Ok(|picked|))
    {
      result := store.DeleteExpired(now, fault);
    }
  }

  /** In every state the service can reach, each rule is found by the code that clients are told:
      it can be read, resolved unless it has expired, and deleted. */
  lemma EveryRuleIsReachable(service: Service, code: string, now: int)
    requires service.Valid() && code in service.store.table
    ensures var t := service.store.table;
            var named := ValidateCode(t[code].code);
            && named.Ok?
            && Get(t, named.value) == Ok(t[code])
            && Delete(t, named.value) == (t - {code}, Ok(()))
            && Resolve(t, named.value, now).1
               == if t[code].expiresAt.Some? && t[code].expiresAt.value <= now then Err(Expired(t[code], TimeToLive))
                  else if t[code].maxUsages.Some? && t[code].maxUsages.value <= t[code].usedCount then
                    Err(Expired(t[code], MaxUsages))
                  else Ok(t[code].(usedCount := t[code].usedCount + 1, lastUsedAt := Some(now)))
  {
    assert SqliteStore.StoresAt(service.store.rows, service.store.table, code);
    WellFormedIsFixed(code);
  }
}
