/** Short-link rules and the store the service expects: a table of rules keyed by code. */
module Rules {
  import opened Prelude

  /** Times are instants in nanoseconds; an absent limit never expires the rule. */
  datatype Rule = Rule(
    code: string,
    url: string,
    createdAt: int,
    expiresAt: Option<int>,
    maxUsages: Option<int>,
    usedCount: int,
    lastUsedAt: Option<int>)

  datatype Reason = TimeToLive | MaxUsages

  datatype Error =
    | NotFound
    | AlreadyExists
    | Expired(rule: Rule, reason: Reason)
    | Invalid(field: string)
    | Exhausted
    | Unavailable

  type Table = map<string, Rule>

  predicate TimedOut(rule: Rule, now: int) {
    rule.expiresAt.Some? && now >= rule.expiresAt.value
  }

  predicate UsedUp(rule: Rule) {
    rule.maxUsages.Some? && rule.usedCount >= rule.maxUsages.value
  }

  /** Why a rule no longer resolves; time is asked first. */
  function WhyExpired(rule: Rule, now: int): Option<Reason> {
    if TimedOut(rule, now) then Some(TimeToLive)
    else if UsedUp(rule) then Some(MaxUsages)
    else None
  }

  predicate IsExpired(rule: Rule, now: int) {
    WhyExpired(rule, now).Some?
  }

  /** The rule after one more use. */
  function Used(rule: Rule, now: int): Rule {
    rule.(usedCount := rule.usedCount + 1, lastUsedAt := Some(now))
  }

  // ---------------------------------------------------------------- what each operation does

  function Insert(t: Table, rule: Rule): (Table, Result<Rule, Error>) {
    if rule.code in t then (t, Err(AlreadyExists)) else (t[rule.code := rule], Ok(rule))
  }

  function Get(t: Table, code: string): Result<Rule, Error> {
    if code in t then Ok(t[code]) else Err(NotFound)
  }

  function Delete(t: Table, code: string): (Table, Result<(), Error>) {
    if code in t then (t - {code}, Ok(())) else (t, Err(NotFound))
  }

  function Resolve(t: Table, code: string, now: int): (Table, Result<Rule, Error>) {
    if code !in t then (t, Err(NotFound))
    else
      match WhyExpired(t[code], now)
      case Some(reason) => (t, Err(Expired(t[code], reason)))
      case None => (t[code := Used(t[code], now)], Ok(Used(t[code], now)))
  }

  /** Where the database lets an operation down; a commit may fail after taking effect. */
  datatype Fault = NoFault | BeginFails | StatementFails | UpdateFails | CommitFails(applied: bool)

  /** Whether an operation that is one statement takes effect, confirmed or not. */
  predicate Applies(fault: Fault) {
    fault.NoFault? || fault == CommitFails(true)
  }

  /** What the client of such an operation is told. */
  function Confirm<T>(fault: Fault, answer: Result<T, Error>): Result<T, Error> {
    if fault.NoFault? then answer else Err(Unavailable)
  }

  function TryInsert(t: Table, rule: Rule, fault: Fault): (Table, Result<Rule, Error>) {
    var (after, answer) := Insert(t, rule);
    (if Applies(fault) then after else t, Confirm(fault, answer))
  }

  function TryDelete(t: Table, code: string, fault: Fault): (Table, Result<(), Error>) {
    var (after, answer) := Delete(t, code);
    (if Applies(fault) then after else t, Confirm(fault, answer))
  }

  /** Resolving over a database that may fail on the way. */
  function TryResolve(t: Table, code: string, now: int, fault: Fault): (Table, Result<Rule, Error>) {
    var (used, answer) := Resolve(t, code, now);
    if fault.BeginFails? || fault.StatementFails? then (t, Err(Unavailable))
    else if fault.NoFault? || answer.Err? then (used, answer)
    else (if fault == CommitFails(true) then used else t, Err(Unavailable))
  }

  function ExpiredCodes(t: Table, now: int): set<string> {
    set code | code in t && IsExpired(t[code], now)
  }

  // ---------------------------------------------------------------- the answers, by the fields of the rule

  /** A resolve finds nothing, or a rule whose time has come, or one whose uses are spent, or counts
      one more use of it. */
  lemma ResolveIs(t: Table, code: string, now: int)
    ensures var (after, answer) := Resolve(t, code, now);
            if code !in t then after == t && answer == Err(NotFound)
            else
              var Rule(name, url, createdAt, expiresAt, maxUsages, usedCount, lastUsedAt) := t[code];
              if expiresAt.Some? && expiresAt.value <= now then
                after == t && answer == Err(Expired(t[code], TimeToLive))
              else if maxUsages.Some? && maxUsages.value <= usedCount then
                after == t && answer == Err(Expired(t[code], MaxUsages))
              else
                var used := Rule(name, url, createdAt, expiresAt, maxUsages, usedCount + 1, Some(now));
                after == t[code := used] && answer == Ok(used)
  {
  }

  /** A rule has expired when its time has come or its uses are spent; time is named first. */
  lemma ExpiredIff(rule: Rule, now: int)
    ensures WhyExpired(rule, now) == Some(TimeToLive) <==> rule.expiresAt.Some? && rule.expiresAt.value <= now
    ensures WhyExpired(rule, now) == Some(MaxUsages)
            <==> && !(rule.expiresAt.Some? && rule.expiresAt.value <= now)
                 && rule.maxUsages.Some? && rule.maxUsages.value <= rule.usedCount
    ensures IsExpired(rule, now)
            <==> || (rule.expiresAt.Some? && rule.expiresAt.value <= now)
                 || (rule.maxUsages.Some? && rule.maxUsages.value <= rule.usedCount)
  {
  }

  /** Without a fault a client is told what its operation does; with one it is told nothing, and
      the operation has either not happened or happened whole. */
  lemma FaultsHideTheAnswer(t: Table, rule: Rule, code: string, now: int, fault: Fault)
    ensures TryInsert(t, rule, NoFault) == Insert(t, rule) && TryDelete(t, code, NoFault) == Delete(t, code)
    ensures TryResolve(t, code, now, NoFault) == Resolve(t, code, now)
    ensures fault != NoFault ==>
              && TryInsert(t, rule, fault).1 == Err(Unavailable) && TryDelete(t, code, fault).1 == Err(Unavailable)
              && (TryResolve(t, code, now, fault).1 == Err(Unavailable)
                  || (TryResolve(t, code, now, fault) == Resolve(t, code, now) && Resolve(t, code, now).1.Err?))
    ensures fault == CommitFails(true) ==>
              && TryInsert(t, rule, fault).0 == Insert(t, rule).0 && TryDelete(t, code, fault).0 == Delete(t, code).0
              && TryResolve(t, code, now, fault).0 == Resolve(t, code, now).0
    ensures fault != NoFault && fault != CommitFails(true) ==>
              TryInsert(t, rule, fault).0 == TryDelete(t, code, fault).0 == TryResolve(t, code, now, fault).0 == t
    ensures fault in {BeginFails, StatementFails} ==> TryResolve(t, code, now, fault).1 == Err(Unavailable)
    ensures fault in {UpdateFails, CommitFails(false), CommitFails(true)} && Resolve(t, code, now).1.Err? ==>
              TryResolve(t, code, now, fault) == Resolve(t, code, now)
  {
  }

  /** An insert adds the rule under a code that is free; a delete removes it again. */
  lemma DeleteUndoesInsert(t: Table, rule: Rule)
    ensures rule.code in t ==> Insert(t, rule) == (t, Err(AlreadyExists))
    ensures rule.code !in t ==>
              var after := Insert(t, rule).0;
              && Insert(t, rule).1 == Ok(rule) && Get(after, rule.code) == Ok(rule)
              && (forall code :: code != rule.code ==> Get(after, code) == Get(t, code))
              && Delete(after, rule.code) == (t, Ok(()))
    ensures rule.code !in t ==> Delete(t, rule.code) == (t, Err(NotFound)) && Get(t, rule.code) == Err(NotFound)
  {
    if rule.code !in t {
      assert Insert(t, rule).0 - {rule.code} == t;
    }
  }
}
