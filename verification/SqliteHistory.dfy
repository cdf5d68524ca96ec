/** Whole histories of the SQLite store, whose cleanup compares times as text. */
module SqliteHistory {
  import opened Lifecycle
  import opened Prelude
  import opened Rules
  import opened SqliteStore
  import Timestamps

  /** Operations on times that the text format has: the years 0 to 9999. */
  predicate Timely(now: int, op: Op) {
    match op
    case Create(rule) => Storable(rule)
    case Visit(_) => Timestamps.InRange(now)
    case Clean(_) => Timestamps.InRange(now)
    case _ => true
  }

  /** An operation on SQLite; its cleanup picks among all rules, by the text of their expiry. */
  function TextApply(t: Table, now: int, op: Op): (Table, Reply)
    requires Timely(now, op)
  {
    if op.Clean? then (t - PickedCodes(t, now), Cleaned(|PickedCodes(t, now)|)) else Apply(t, now, op)
  }

  ghost predicate AllTimely(es: seq<Event>) {
    forall i :: 0 <= i < |es| ==> Timely(es[i].now, es[i].op)
  }

  /** The table when event `n` takes effect. */
  function TextAfter(t: Table, es: seq<Event>, n: nat): Table
    requires n <= |es| && AllTimely(es)
  {
    if n == 0 then t else TextApply(TextAfter(t, es, n - 1), es[n - 1].now, es[n - 1].op).0
  }

  function TextReply(t: Table, es: seq<Event>, n: nat): Reply
    requires n < |es| && AllTimely(es)
  {
    TextApply(TextAfter(t, es, n), es[n].now, es[n].op).1
  }

  // ---------------------------------------------------------------- the store runs histories

  /** One operation of some client, asked of the store without faults. */
  method Perform(store: Store, e: Event) returns (reply: Reply)
    requires store.Valid() && Timely(e.now, e.op)
    modifies store
    ensures store.Valid() && (store.table, reply) == TextApply(old(store.table), e.now, e.op)
  {
    match e.op {
      case Create(rule) =>
        var r := store.CreateRule(rule, NoFault);
        reply := ReplyOf(r);
      case Fetch(code) =>
        var r := store.GetRule(code, NoFault);
        reply := ReplyOf(r);
      case Remove(code) =>
        var r := store.DeleteRule(code, NoFault);
        reply := if r.Ok? then Done else Failed(r.error);
      case Visit(code) =>
        var r := store.ResolveRule(code, e.now, NoFault);
        reply := ReplyOf(r);
      case Clean(_) =>
        var r := store.DeleteExpired(e.now, NoFault);
        reply := Cleaned(r.value);
    }
  }

  method PerformAll(store: Store, es: seq<Event>)
    requires store.Valid() && AllTimely(es)
    modifies store
    ensures store.Valid() && store.table == TextAfter(old(store.table), es, |es|)
  {
    for i := 0 to |es|
      invariant store.Valid() && store.table == TextAfter(old(store.table), es, i)
    {
      var _ := Perform(store, es[i]);
    }
  }

  // ---------------------------------------------------------------- how long a rule resolves

  /** From event `from` to event `n`, nobody deletes the rule under `code`, and nobody creates
      another one under it after a cleanup. */
  ghost predicate LeavesInPlace(es: seq<Event>, code: string, from: nat, n: nat)
    requires n <= |es|
  {
    forall i :: from <= i < n ==>
      && es[i].op != Remove(code)
      && (es[i].op.Create? && es[i].op.rule.code == code ==> forall j :: from <= j < i ==> !es[j].op.Clean?)
  }

  function TextUses(t: Table, es: seq<Event>, code: string, from: nat, n: nat): nat
    requires from <= n <= |es| && AllTimely(es)
  {
    if n == from then 0
    else
      TextUses(t, es, code, from, n - 1)
      + (if es[n - 1].op == Visit(code) && TextReply(t, es, n - 1).Given? then 1 else 0)
  }

  /** A cleanup to which the text of the rule's expiry says that its time has come. */
  predicate TextTakes(e: Event, rule: Rule)
    requires Timely(e.now, e.op) && Storable(rule)
  {
    e.op.Clean? && rule.expiresAt.Some? && Timestamps.TextOrderOf(rule.expiresAt.value, e.now) <= 0
  }

  ghost predicate TextTaken(es: seq<Event>, rule: Rule, from: nat, n: nat)
    requires n <= |es| && AllTimely(es) && Storable(rule)
  {
    exists j :: from <= j < n && TextTakes(es[j], rule)
  }

  /** Event `j` is a cleanup to which the text of the rule's expiry says that its time has come, or
      that comes when its uses are spent. */
  predicate TextTakesAway(t: Table, es: seq<Event>, code: string, from: nat, j: nat)
    requires from <= j < |es| && AllTimely(es)
    requires code in TextAfter(t, es, from) && Storable(TextAfter(t, es, from)[code])
  {
    var rule := TextAfter(t, es, from)[code];
    es[j].op.Clean? && (TextTakes(es[j], rule) || !HasUses(rule, TextUses(t, es, code, from, j)))
  }

  /** Some event between `from` and `n` does. */
  predicate TextTakenAway(t: Table, es: seq<Event>, code: string, from: nat, n: nat)
    requires from <= n <= |es| && AllTimely(es)
    requires code in TextAfter(t, es, from) && Storable(TextAfter(t, es, from)[code])
  {
    n > from && (TextTakesAway(t, es, code, from, n - 1) || TextTakenAway(t, es, code, from, n - 1))
  }

  /** What has become of a rule after `uses` uses: it is there with its uses counted, or a cleanup
      has taken it. */
  ghost predicate TextTraced(
    es: seq<Event>, code: string, from: nat, n: nat, rule: Rule, uses: nat, taken: bool, now: Table)
    requires n <= |es| && AllTimely(es) && Storable(rule)
  {
    if code in now then
      && now[code] == rule.(usedCount := rule.usedCount + uses, lastUsedAt := now[code].lastUsedAt)
      && Storable(now[code])
      && !taken && !TextTaken(es, rule, from, n)
    else
      && taken && (TextTaken(es, rule, from, n) || !HasUses(rule, uses))
      && exists j :: from <= j < n && es[j].op.Clean?
  }

  lemma TextTraceStep(
    es: seq<Event>, code: string, from: nat, n: nat, rule: Rule, uses: nat, taken: bool, now: Table,
    counted: nat, gone: bool, after: Table)
    requires from <= n < |es| && AllTimely(es) && Storable(rule) && LeavesInPlace(es, code, from, n + 1)
    requires TextTraced(es, code, from, n, rule, uses, taken, now)
    requires after == TextApply(now, es[n].now, es[n].op).0
    requires var answered := TextApply(now, es[n].now, es[n].op).1.Given?;
             counted == uses + if es[n].op == Visit(code) && answered then 1 else 0
    requires gone <==> (es[n].op.Clean? && (TextTakes(es[n], rule) || !HasUses(rule, uses))) || taken
    ensures TextTraced(es, code, from, n + 1, rule, counted, gone, after)
  {
    if code in now && es[n].op.Clean? {
      assert code in after <==> !Picks(now[code], es[n].now);
      assert Picks(now[code], es[n].now) <==> TextTakes(es[n], rule) || !HasUses(rule, uses);
    }
  }

  lemma {:induction false} TextRuleIsTraced(t: Table, es: seq<Event>, code: string, from: nat, n: nat)
    requires from <= n <= |es| && AllTimely(es) && LeavesInPlace(es, code, from, n)
    requires code in TextAfter(t, es, from) && Storable(TextAfter(t, es, from)[code])
    ensures TextTraced(
              es, code, from, n, TextAfter(t, es, from)[code], TextUses(t, es, code, from, n),
              TextTakenAway(t, es, code, from, n), TextAfter(t, es, n))
    decreases n
  {
    if n > from {
      var m := n - 1;
      TextRuleIsTraced(t, es, code, from, m);
      TextTraceStep(
        es, code, from, m, TextAfter(t, es, from)[code],
        TextUses(t, es, code, from, m), TextTakenAway(t, es, code, from, m), TextAfter(t, es, m),
        TextUses(t, es, code, from, n), TextTakenAway(t, es, code, from, n), TextAfter(t, es, n));
    }
  }

  /** On SQLite, in every history that leaves a rule in place and whatever the clocks, a resolve
      succeeds exactly when the rule's time has not come, it has uses left, and no cleanup came
      before to which the text of its expiry said that its time had come. */
  lemma ResolvesOnSqlite(t: Table, es: seq<Event>, code: string, from: nat, n: nat)
    requires from <= n < |es| && AllTimely(es) && es[n].op == Visit(code) && LeavesInPlace(es, code, from, n)
    requires code in TextAfter(t, es, from) && Storable(TextAfter(t, es, from)[code])
    ensures var rule := TextAfter(t, es, from)[code];
            TextReply(t, es, n).Given?
            <==> Lasts(rule, es[n].now, TextUses(t, es, code, from, n)) && !TextTaken(es, rule, from, n)
  {
    TextRuleIsTraced(t, es, code, from, n);
  }

  /** No earlier cleanup has a later time than event `n`. */
  ghost predicate CleanupsInTime(es: seq<Event>, from: nat, n: nat)
    requires n < |es|
  {
    forall j :: from <= j < n && es[j].op.Clean? ==> es[j].now <= es[n].now
  }

  /** A cleanup in the second in which the rule expires, before it does, whose fraction the
      fraction of the expiry properly continues. */
  predicate TooEarly(e: Event, rule: Rule)
    requires Timely(e.now, e.op) && Storable(rule)
  {
    && e.op.Clean? && rule.expiresAt.Some?
    && Timestamps.SameSecond(e.now, rule.expiresAt.value)
    && Timestamps.FractionDigits(e.now) < Timestamps.FractionDigits(rule.expiresAt.value)
  }

  /** Before the expiry, a cleanup takes a rule with uses left exactly when it is too early. */
  lemma TakesTooEarly(e: Event, rule: Rule, now: int)
    requires Timely(e.now, e.op) && Storable(rule) && !TimedOut(rule, now) && (e.op.Clean? ==> e.now <= now)
    ensures TextTakes(e, rule) <==> TooEarly(e, rule)
  {
    if e.op.Clean? && rule.expiresAt.Some? {
      Timestamps.TextOrderErrsIff(rule.expiresAt.value, e.now);
    }
  }

  lemma EarlierSecond(a: int, b: int, c: int)
    requires a <= b && b / Timestamps.SECOND < c / Timestamps.SECOND
    ensures a / Timestamps.SECOND != c / Timestamps.SECOND
  {
  }

  ghost predicate LostTooEarly(es: seq<Event>, rule: Rule, from: nat, n: nat)
    requires n <= |es| && AllTimely(es) && Storable(rule)
  {
    exists j :: from <= j < n && TooEarly(es[j], rule)
  }

  lemma TakenIsTooEarly(es: seq<Event>, rule: Rule, from: nat, n: nat)
    requires n < |es| && AllTimely(es) && Storable(rule) && CleanupsInTime(es, from, n)
    requires !TimedOut(rule, es[n].now)
    ensures TextTaken(es, rule, from, n) <==> LostTooEarly(es, rule, from, n)
  {
    forall j | from <= j < n ensures TextTakes(es[j], rule) <==> TooEarly(es[j], rule) {
      TakesTooEarly(es[j], rule, es[n].now);
    }
  }

  lemma NotTooEarly(es: seq<Event>, rule: Rule, from: nat, n: nat)
    requires n < |es| && AllTimely(es) && Storable(rule) && CleanupsInTime(es, from, n)
    requires rule.expiresAt.Some? ==> es[n].now / Timestamps.SECOND < rule.expiresAt.value / Timestamps.SECOND
    ensures !LostTooEarly(es, rule, from, n)
  {
    forall j | from <= j < n ensures !TooEarly(es[j], rule) {
      if es[j].op.Clean? && rule.expiresAt.Some? {
        EarlierSecond(es[j].now, es[n].now, rule.expiresAt.value);
      }
    }
  }

  /** When cleanups come in time, a rule that still lasts is lost exactly to one in the second in
      which it expires whose fraction the expiry's continues; resolves before that second are safe. */
  lemma SqliteLosesRulesIff(t: Table, es: seq<Event>, code: string, from: nat, n: nat)
    requires from <= n < |es| && AllTimely(es) && es[n].op == Visit(code) && LeavesInPlace(es, code, from, n)
    requires code in TextAfter(t, es, from) && Storable(TextAfter(t, es, from)[code])
    requires CleanupsInTime(es, from, n)
    ensures var rule := TextAfter(t, es, from)[code];
            var lasts := Lasts(rule, es[n].now, TextUses(t, es, code, from, n));
            && (TextReply(t, es, n).Given? <==> lasts && !LostTooEarly(es, rule, from, n))
            && ((rule.expiresAt.Some? ==> es[n].now / Timestamps.SECOND < rule.expiresAt.value / Timestamps.SECOND) ==>
                  (TextReply(t, es, n).Given? <==> lasts))
  {
    var rule := TextAfter(t, es, from)[code];
    ResolvesOnSqlite(t, es, code, from, n);
    if !TimedOut(rule, es[n].now) {
      TakenIsTooEarly(es, rule, from, n);
    }
    if rule.expiresAt.Some? ==> es[n].now / Timestamps.SECOND < rule.expiresAt.value / Timestamps.SECOND {
      NotTooEarly(es, rule, from, n);
    }
  }

  // ---------------------------------------------------------------- how each resolve is answered

  lemma TextAnswer(rule: Rule, es: seq<Event>, code: string, from: nat, n: nat, uses: nat, taken: bool, now: Table)
    requires n < |es| && AllTimely(es) && es[n].op == Visit(code) && Storable(rule)
    requires TextTraced(es, code, from, n, rule, uses, taken, now)
    ensures var reply := TextApply(now, es[n].now, es[n].op).1;
            if taken then reply == Failed(NotFound) else AnswersFor(rule, uses, es[n].now, reply)
  {
  }

  /** On SQLite, how each resolve of a rule that is left in place is answered. */
  lemma SqliteAnswers(t: Table, es: seq<Event>, code: string, from: nat, n: nat)
    requires from <= n < |es| && AllTimely(es) && es[n].op == Visit(code) && LeavesInPlace(es, code, from, n)
    requires code in TextAfter(t, es, from) && Storable(TextAfter(t, es, from)[code])
    ensures var reply := TextReply(t, es, n);
            if TextTakenAway(t, es, code, from, n) then reply == Failed(NotFound)
            else AnswersFor(TextAfter(t, es, from)[code], TextUses(t, es, code, from, n), es[n].now, reply)
  {
    TextRuleIsTraced(t, es, code, from, n);
    TextAnswer(
      TextAfter(t, es, from)[code], es, code, from, n, TextUses(t, es, code, from, n),
      TextTakenAway(t, es, code, from, n), TextAfter(t, es, n));
  }
}
