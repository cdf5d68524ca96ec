/** Whole histories of the rule table, and what cleaning it up changes for clients. */
module Lifecycle {
  import opened Prelude
  import opened Rules

  /** `Clean` may take any of the codes offered to it, provided their rules have expired. */
  datatype Op =
    | Create(rule: Rule)
    | Fetch(code: string)
    | Remove(code: string)
    | Visit(code: string)
    | Clean(offered: set<string>)

  /** An operation and the time its client read before asking for it; operations take effect in the
      order of the history, whatever their times.  `extra` marks a cleanup that one history has and
      the other lacks. */
  datatype Event = Event(now: int, op: Op, extra: bool)

  datatype Reply =
    | Given(rule: Rule)
    | Done
    | Cleaned(count: nat)
    | Failed(error: Error)

  function ReplyOf(r: Result<Rule, Error>): Reply {
    match r
    case Ok(rule) => Given(rule)
    case Err(e) => Failed(e)
  }

  function Apply(t: Table, now: int, op: Op): (Table, Reply) {
    match op
    case Create(rule) =>
      var (t', r) := Insert(t, rule);
      (t', ReplyOf(r))
    case Fetch(code) => (t, ReplyOf(Get(t, code)))
    case Remove(code) =>
      var (t', r) := Delete(t, code);
      (t', if r.Ok? then Done else Failed(r.error))
    case Visit(code) =>
      var (t', r) := Resolve(t, code, now);
      (t', ReplyOf(r))
    case Clean(offered) =>
      var victims := ExpiredCodes(t, now) * offered;
      (t - victims, Cleaned(|victims|))
  }

  /** The table when event `n` takes effect; `cleaning` says whether the extra cleanups happen. */
  function After(t: Table, es: seq<Event>, n: nat, cleaning: bool): Table
    requires n <= |es|
  {
    if n == 0 then t
    else
      var before := After(t, es, n - 1, cleaning);
      if es[n - 1].extra && !cleaning then before else Apply(before, es[n - 1].now, es[n - 1].op).0
  }

  /** What the client of event `n` is told. */
  function ReplyTo(t: Table, es: seq<Event>, n: nat, cleaning: bool): Reply
    requires n < |es|
  {
    Apply(After(t, es, n, cleaning), es[n].now, es[n].op).1
  }

  /** What happens to the first events does not depend on later ones. */
  lemma {:induction false} AfterIsLocal(t: Table, es: seq<Event>, fs: seq<Event>, n: nat, cleaning: bool)
    requires n <= |es| && n <= |fs| && es[..n] == fs[..n]
    ensures After(t, es, n, cleaning) == After(t, fs, n, cleaning)
  {
    if n > 0 {
      assert es[..n - 1] == es[..n][..n - 1] == fs[..n - 1];
      assert es[n - 1] == es[..n][n - 1] == fs[n - 1];
      AfterIsLocal(t, es, fs, n - 1, cleaning);
    }
  }

  // ---------------------------------------------------------------- cleanups, at any times

  /** Only cleanups are extra. */
  ghost predicate ExtrasClean(es: seq<Event>) {
    forall i :: 0 <= i < |es| && es[i].extra ==> es[i].op.Clean?
  }

  /** An extra cleanup for which the rule under `code` has expired. */
  predicate Takes(e: Event, code: string, rule: Rule) {
    e.extra && e.op.Clean? && code in e.op.offered && IsExpired(rule, e.now)
  }

  ghost predicate TakenBefore(es: seq<Event>, n: nat, code: string, rule: Rule)
    requires n <= |es|
  {
    exists j :: 0 <= j < n && Takes(es[j], code, rule)
  }

  /** Without the extra cleanups, a create does not meet a rule that an earlier one had taken. */
  ghost predicate MeetsNoTakenRule(t: Table, es: seq<Event>, n: nat)
    requires n < |es|
  {
    es[n].op.Create? ==>
      var code, a := es[n].op.rule.code, After(t, es, n, false);
      code in a ==> !TakenBefore(es, n, code, a[code])
  }

  ghost predicate ReusesNoTakenCode(t: Table, es: seq<Event>) {
    forall n {:trigger MeetsNoTakenRule(t, es, n)} :: 0 <= n < |es| && !es[n].extra ==> MeetsNoTakenRule(t, es, n)
  }

  /** An earlier cleanup was asked for at a time at which the rule had timed out, although it has
      not at the time of event `n`. */
  ghost predicate Overtaken(es: seq<Event>, n: nat, code: string, rule: Rule)
    requires n < |es|
  {
    && rule.expiresAt.Some? && es[n].now < rule.expiresAt.value
    && exists j :: 0 <= j < n && es[j].extra && Cleans(es[j], code) && rule.expiresAt.value <= es[j].now
  }

  /** A cleanup that is offered `code`. */
  predicate Cleans(e: Event, code: string) {
    e.op.Clean? && code in e.op.offered
  }

  /** How an answer may change when there is more cleaning: a rule that had expired for an earlier
      cleanup may be gone. */
  ghost predicate SameOrGone(es: seq<Event>, n: nat, without: Reply, cleaned: Reply)
    requires n < |es|
  {
    match es[n].op
    case Create(_) => cleaned == without
    case Fetch(code) =>
      cleaned == without
      || (cleaned == Failed(NotFound) && without.Given? && TakenBefore(es, n, code, without.rule))
    case Remove(_) =>
      cleaned == without || (cleaned == Failed(NotFound) && without == Done)
    case Visit(code) =>
      || cleaned == without
      || (cleaned == Failed(NotFound) && without.Failed? && without.error.Expired?)
      || (cleaned == Failed(NotFound) && without.Given? && Overtaken(es, n, code, without.rule))
    case Clean(_) => cleaned.Cleaned? && without.Cleaned? && cleaned.count <= without.count
  }

  /** The cleaner table lacks nothing but rules that had expired for an earlier cleanup. */
  ghost predicate LacksOnlyTaken(without: Table, cleaned: Table, es: seq<Event>, n: nat)
    requires n <= |es|
  {
    && cleaned.Keys <= without.Keys
    && (forall code :: code in cleaned ==> cleaned[code] == without[code])
    && (forall code :: code in without && code !in cleaned ==> TakenBefore(es, n, code, without[code]))
  }

  lemma TakenStaysTaken(es: seq<Event>, n: nat, code: string, rule: Rule, after: Rule)
    requires n < |es| && TakenBefore(es, n, code, rule)
    requires after == rule || exists now :: after == Used(rule, now)
    ensures TakenBefore(es, n + 1, code, after)
  {
    var j :| 0 <= j < n && Takes(es[j], code, rule);
    assert Takes(es[j], code, after);
  }

  /** One event that both histories have. */
  lemma SharedStep(es: seq<Event>, n: nat, a: Table, b: Table)
    requires n < |es| && !es[n].extra && LacksOnlyTaken(a, b, es, n)
    requires es[n].op.Create? && es[n].op.rule.code in a ==>
               !TakenBefore(es, n, es[n].op.rule.code, a[es[n].op.rule.code])
    ensures LacksOnlyTaken(Apply(a, es[n].now, es[n].op).0, Apply(b, es[n].now, es[n].op).0, es, n + 1)
  {
    var (a', b') := (Apply(a, es[n].now, es[n].op).0, Apply(b, es[n].now, es[n].op).0);
    forall code | code in a' && code !in b' ensures TakenBefore(es, n + 1, code, a'[code]) {
      TakenStaysTaken(es, n, code, a[code], a'[code]);
    }
  }

  lemma ExtraStep(es: seq<Event>, n: nat, a: Table, b: Table)
    requires n < |es| && es[n].extra && es[n].op.Clean? && LacksOnlyTaken(a, b, es, n)
    ensures LacksOnlyTaken(a, Apply(b, es[n].now, es[n].op).0, es, n + 1)
  {
    var b' := Apply(b, es[n].now, es[n].op).0;
    forall code | code in a && code !in b' ensures TakenBefore(es, n + 1, code, a[code]) {
      if code in b {
        assert Takes(es[n], code, a[code]);
      } else {
        TakenStaysTaken(es, n, code, a[code], a[code]);
      }
    }
  }

  lemma {:induction false} CleanerTableLacksOnlyTaken(t: Table, es: seq<Event>, n: nat)
    requires n <= |es| && ExtrasClean(es) && ReusesNoTakenCode(t, es)
    ensures LacksOnlyTaken(After(t, es, n, false), After(t, es, n, true), es, n)
  {
    if n > 0 {
      CleanerTableLacksOnlyTaken(t, es, n - 1);
      var a, b := After(t, es, n - 1, false), After(t, es, n - 1, true);
      if es[n - 1].extra {
        ExtraStep(es, n - 1, a, b);
      } else {
        assert MeetsNoTakenRule(t, es, n - 1);
        SharedStep(es, n - 1, a, b);
      }
    }
  }

  lemma SubsetSize(s: set<string>, t: set<string>)
    requires s <= t
    ensures |s| <= |t|
  {
    assert t == s + (t - s);
  }

  lemma RepliesStayClose(es: seq<Event>, n: nat, a: Table, b: Table)
    requires n < |es| && !es[n].extra && LacksOnlyTaken(a, b, es, n)
    requires es[n].op.Create? && es[n].op.rule.code in a ==>
               !TakenBefore(es, n, es[n].op.rule.code, a[es[n].op.rule.code])
    ensures SameOrGone(es, n, Apply(a, es[n].now, es[n].op).1, Apply(b, es[n].now, es[n].op).1)
  {
    match es[n].op {
      case Clean(offered) =>
        SubsetSize(ExpiredCodes(b, es[n].now) * offered, ExpiredCodes(a, es[n].now) * offered);
      case Visit(code) =>
        if code in a && code !in b {
          var j :| 0 <= j < n && Takes(es[j], code, a[code]);
          assert Cleans(es[j], code);
        }
      case _ =>
    }
  }

  /** Whatever the clocks, cleanups inserted anywhere leave every answer as it was, except that a
      rule may be reported as not found when it had expired for an earlier cleanup.  A resolve that
      would have succeeded is lost only to a cleanup whose time has overtaken its own. */
  lemma CleanupsTakeOnlyExpired(t: Table, es: seq<Event>, n: nat)
    requires n < |es| && !es[n].extra && ExtrasClean(es) && ReusesNoTakenCode(t, es)
    ensures SameOrGone(es, n, ReplyTo(t, es, n, false), ReplyTo(t, es, n, true))
  {
    CleanerTableLacksOnlyTaken(t, es, n);
    assert MeetsNoTakenRule(t, es, n);
    RepliesStayClose(es, n, After(t, es, n, false), After(t, es, n, true));
  }

  /** No earlier cleanup that is offered `code` has a later time than event `n`. */
  ghost predicate CleanedInTime(es: seq<Event>, from: nat, n: nat, code: string)
    requires n < |es|
  {
    forall j :: from <= j < n && Cleans(es[j], code) ==> es[j].now <= es[n].now
  }

  /** Every successful resolve that no cleanup's time has overtaken stays, with the rule it
      returned, and none is added. */
  lemma ResolvesSurviveCleanups(t: Table, es: seq<Event>, n: nat, code: string)
    requires n < |es| && !es[n].extra && ExtrasClean(es) && ReusesNoTakenCode(t, es)
    requires es[n].op == Visit(code) && CleanedInTime(es, 0, n, code)
    ensures ReplyTo(t, es, n, false).Given? || ReplyTo(t, es, n, true).Given?
            ==> ReplyTo(t, es, n, true) == ReplyTo(t, es, n, false)
  {
    CleanupsTakeOnlyExpired(t, es, n);
  }

  // ---------------------------------------------------------------- cleanups, in time order

  ghost predicate Ordered(es: seq<Event>) {
    forall i, j :: 0 <= i <= j < |es| ==> es[i].now <= es[j].now
  }

  ghost predicate NoExtras(es: seq<Event>) {
    forall i :: 0 <= i < |es| ==> !es[i].extra
  }

  /** The events that do not depend on whether there is extra cleaning. */
  function Common(es: seq<Event>): (rs: seq<Event>)
    ensures NoExtras(rs)
  {
    if es == [] then []
    else Common(es[..|es| - 1]) + (if es[|es| - 1].extra then [] else [es[|es| - 1]])
  }

  /** A create that meets an expired rule. */
  predicate ReusesExpiredCode(t: Table, es: seq<Event>, n: nat)
    requires n < |es|
  {
    es[n].op.Create? &&
      var code, a := es[n].op.rule.code, After(t, es, n, false);
      code in a && IsExpired(a[code], es[n].now)
  }

  /** Nobody creates a rule under a code whose rule has expired but is still in the table. */
  ghost predicate ReusesNoExpiredCode(t: Table, es: seq<Event>) {
    forall n {:trigger ReusesExpiredCode(t, es, n)} :: 0 <= n < |es| ==> !ReusesExpiredCode(t, es, n)
  }

  /** No cleanups that are inserted in time order change an answer, other than to report an expired
      rule as not found. */
  ghost predicate HidesCleanups(t: Table, es: seq<Event>) {
    forall fs: seq<Event>, n {:trigger ReplyTo(t, fs, n, true)} ::
      Common(fs) == es && Ordered(fs) && ExtrasClean(fs) && 0 <= n < |fs| && !fs[n].extra ==>
        SameOrGone(fs, n, ReplyTo(t, fs, n, false), ReplyTo(t, fs, n, true))
  }

  /** Where an event of the longer history is found among the common ones. */
  lemma {:induction false} CommonAt(t: Table, fs: seq<Event>, n: nat)
    requires n <= |fs|
    ensures var k := |Common(fs[..n])|;
            && k <= |Common(fs)| && Common(fs)[..k] == Common(fs[..n])
            && After(t, fs, n, false) == After(t, Common(fs), k, false)
            && (n < |fs| && !fs[n].extra ==> k < |Common(fs)| && Common(fs)[k] == fs[n])
    decreases |fs| + n
  {
    if n < |fs| {
      var front := fs[..|fs| - 1];
      assert front[..n] == fs[..n];
      CommonAt(t, front, n);
      AfterIsLocal(t, fs, front, n, false);
      AfterIsLocal(t, Common(fs), Common(front), |Common(fs[..n])|, false);
    } else if n > 0 {
      assert fs[..n] == fs;
      CommonAt(t, fs, n - 1);
    }
  }

  /** In time order, creates that avoid expired codes avoid the rules that cleanups have taken. */
  lemma InsertionsReuseNoTakenCode(t: Table, fs: seq<Event>)
    requires Ordered(fs) && ReusesNoExpiredCode(t, Common(fs))
    ensures ReusesNoTakenCode(t, fs)
  {
    forall n | 0 <= n < |fs| && !fs[n].extra ensures MeetsNoTakenRule(t, fs, n) {
      CommonAt(t, fs, n);
      assert !ReusesExpiredCode(t, Common(fs), |Common(fs[..n])|);
    }
  }

  /** A cleanup right before event `k`, at the same time. */
  function CleanBefore(es: seq<Event>, k: nat, code: string): seq<Event>
    requires k < |es|
  {
    es[..k] + [Event(es[k].now, Clean({code}), true)] + es[k..]
  }

  lemma {:induction false} CommonAppends(es: seq<Event>, fs: seq<Event>)
    ensures Common(es + fs) == Common(es) + Common(fs)
  {
    if fs == [] {
      assert es + fs == es;
    } else {
      var front := fs[..|fs| - 1];
      assert (es + fs)[..|es + fs| - 1] == es + front;
      CommonAppends(es, front);
    }
  }

  lemma {:induction false} CommonOfCommon(es: seq<Event>)
    requires NoExtras(es)
    ensures Common(es) == es
  {
    if es != [] {
      var front := es[..|es| - 1];
      CommonOfCommon(front);
      assert !es[|es| - 1].extra;
      assert front + [es[|es| - 1]] == es;
    }
  }

  lemma CleanBeforeIsCommon(es: seq<Event>, k: nat, code: string)
    requires k < |es| && NoExtras(es)
    ensures Common(CleanBefore(es, k, code)) == es
  {
    var clean := [Event(es[k].now, Clean({code}), true)];
    CommonAppends(es[..k] + clean, es[k..]);
    CommonAppends(es[..k], clean);
    CommonOfCommon(es[..k]);
    CommonOfCommon(es[k..]);
    assert clean[..0] == [];
    assert Common(clean) == [];
    assert es[..k] + es[k..] == es;
  }

  lemma {:induction false} NothingExtra(t: Table, es: seq<Event>, n: nat)
    requires n <= |es| && NoExtras(es)
    ensures After(t, es, n, true) == After(t, es, n, false)
  {
    if n > 0 {
      NothingExtra(t, es, n - 1);
    }
  }

  /** A cleanup right before a create that meets an expired rule frees its code. */
  lemma CleanupFreesExpiredCode(t: Table, es: seq<Event>, k: nat)
    requires k < |es| && NoExtras(es) && ReusesExpiredCode(t, es, k)
    ensures var fs := CleanBefore(es, k, es[k].op.rule.code);
            && Common(fs) == es && fs[k + 1] == es[k]
            && ReplyTo(t, fs, k + 1, false) == Failed(AlreadyExists)
            && ReplyTo(t, fs, k + 1, true) == Given(es[k].op.rule)
  {
    var code := es[k].op.rule.code;
    var fs := CleanBefore(es, k, code);
    CleanBeforeIsCommon(es, k, code);
    NothingExtra(t, es, k);
    AfterIsLocal(t, fs, es, k, false);
    AfterIsLocal(t, fs, es, k, true);
    var a := After(t, es, k, false);
    assert fs[k] == Event(es[k].now, Clean({code}), true);
    assert After(t, fs, k + 1, false) == a;
    assert code in ExpiredCodes(a, es[k].now) * {code};
  }

  lemma CleanBeforeInOrder(es: seq<Event>, k: nat, code: string)
    requires k < |es| && Ordered(es)
    ensures Ordered(CleanBefore(es, k, code))
  {
    var fs := CleanBefore(es, k, code);
    forall i, j | 0 <= i <= j < |fs| ensures fs[i].now <= fs[j].now {
      var i', j' := if i <= k then i else i - 1, if j <= k then j else j - 1;
      assert fs[i].now == es[i'].now && fs[j].now == es[j'].now;
    }
  }

  /** When operations take effect in the order of their times, inserted cleanups stay hidden exactly
      when nobody creates a rule under a code whose rule has expired but is still in the table. */
  lemma CleanupsAreHiddenIff(t: Table, es: seq<Event>)
    requires Ordered(es) && NoExtras(es)
    ensures HidesCleanups(t, es) <==> ReusesNoExpiredCode(t, es)
  {
    if ReusesNoExpiredCode(t, es) {
      forall fs: seq<Event>, n | Common(fs) == es && Ordered(fs) && ExtrasClean(fs) && 0 <= n < |fs| && !fs[n].extra
        ensures SameOrGone(fs, n, ReplyTo(t, fs, n, false), ReplyTo(t, fs, n, true))
      {
        InsertionsReuseNoTakenCode(t, fs);
        CleanupsTakeOnlyExpired(t, fs, n);
      }
    }
    forall k | 0 <= k < |es| && ReusesExpiredCode(t, es, k) ensures !HidesCleanups(t, es) {
      var fs := CleanBefore(es, k, es[k].op.rule.code);
      CleanupFreesExpiredCode(t, es, k);
      CleanBeforeInOrder(es, k, es[k].op.rule.code);
      assert ExtrasClean(fs);
      assert !SameOrGone(fs, k + 1, ReplyTo(t, fs, k + 1, false), ReplyTo(t, fs, k + 1, true));
    }
  }

  // ---------------------------------------------------------------- how long a rule resolves

  /** From event `from` to event `n`, nobody deletes the rule under `code`, and nobody creates
      another one under it after a cleanup may have taken it. */
  ghost predicate LeavesAlone(es: seq<Event>, code: string, from: nat, n: nat)
    requires n <= |es|
  {
    forall i :: from <= i < n ==>
      && es[i].op != Remove(code)
      && (es[i].op.Create? && es[i].op.rule.code == code ==> forall j :: from <= j < i ==> !Cleans(es[j], code))
  }

  /** Successful resolves of `code` from event `from` to event `n`. */
  function Uses(t: Table, es: seq<Event>, code: string, from: nat, n: nat): nat
    requires from <= n <= |es|
  {
    if n == from then 0
    else
      Uses(t, es, code, from, n - 1)
      + (if es[n - 1].op == Visit(code) && ReplyTo(t, es, n - 1, true).Given? then 1 else 0)
  }

  /** A rule after `uses` more uses has uses left. */
  predicate HasUses(rule: Rule, uses: nat) {
    rule.maxUsages.Some? ==> rule.usedCount + uses < rule.maxUsages.value
  }

  /** A rule after `uses` more uses still resolves. */
  predicate Lasts(rule: Rule, now: int, uses: nat) {
    !TimedOut(rule, now) && HasUses(rule, uses)
  }

  /** A cleanup that is offered the rule and for which its time has come. */
  ghost predicate CleanedAway(es: seq<Event>, code: string, rule: Rule, from: nat, n: nat)
    requires n <= |es|
  {
    exists j :: from <= j < n && Cleans(es[j], code) && TimedOut(rule, es[j].now)
  }

  /** Event `j` is a cleanup that is offered the rule when its time has come or its uses are spent. */
  predicate TakesAway(t: Table, es: seq<Event>, code: string, from: nat, j: nat)
    requires from <= j < |es| && code in After(t, es, from, true)
  {
    var rule := After(t, es, from, true)[code];
    Cleans(es[j], code) && (TimedOut(rule, es[j].now) || !HasUses(rule, Uses(t, es, code, from, j)))
  }

  /** Some event between `from` and `n` does. */
  predicate TakenAway(t: Table, es: seq<Event>, code: string, from: nat, n: nat)
    requires from <= n <= |es| && code in After(t, es, from, true)
  {
    n > from && (TakesAway(t, es, code, from, n - 1) || TakenAway(t, es, code, from, n - 1))
  }

  /** What has become of a rule after `uses` uses: it is there with its uses counted, or a cleanup
      has taken it. */
  ghost predicate Traced(
    es: seq<Event>, code: string, from: nat, n: nat, rule: Rule, uses: nat, taken: bool, now: Table)
    requires n <= |es|
  {
    if code in now then
      && now[code] == rule.(usedCount := rule.usedCount + uses, lastUsedAt := now[code].lastUsedAt)
      && !taken && !CleanedAway(es, code, rule, from, n)
    else
      && taken && (CleanedAway(es, code, rule, from, n) || !HasUses(rule, uses))
      && exists j :: from <= j < n && Cleans(es[j], code)
  }

  lemma TraceStep(
    es: seq<Event>, code: string, from: nat, n: nat, rule: Rule, uses: nat, taken: bool, now: Table,
    counted: nat, gone: bool, after: Table)
    requires from <= n < |es| && LeavesAlone(es, code, from, n + 1)
    requires Traced(es, code, from, n, rule, uses, taken, now)
    requires after == Apply(now, es[n].now, es[n].op).0
    requires var answered := Apply(now, es[n].now, es[n].op).1.Given?;
             counted == uses + if es[n].op == Visit(code) && answered then 1 else 0
    requires gone <==> (Cleans(es[n], code) && (TimedOut(rule, es[n].now) || !HasUses(rule, uses))) || taken
    ensures Traced(es, code, from, n + 1, rule, counted, gone, after)
  {
    if code in now && Cleans(es[n], code) {
      assert code in after <==> !IsExpired(now[code], es[n].now);
    }
  }

  lemma {:induction false} RuleIsTraced(t: Table, es: seq<Event>, code: string, from: nat, n: nat)
    requires from <= n <= |es| && code in After(t, es, from, true) && LeavesAlone(es, code, from, n)
    ensures Traced(
              es, code, from, n, After(t, es, from, true)[code], Uses(t, es, code, from, n),
              TakenAway(t, es, code, from, n), After(t, es, n, true))
    decreases n
  {
    if n > from {
      var m := n - 1;
      RuleIsTraced(t, es, code, from, m);
      TraceStep(
        es, code, from, m, After(t, es, from, true)[code],
        Uses(t, es, code, from, m), TakenAway(t, es, code, from, m), After(t, es, m, true),
        Uses(t, es, code, from, n), TakenAway(t, es, code, from, n), After(t, es, n, true));
    }
  }

  /** In every history that leaves a rule alone, whatever happens to other rules and whatever the
      clocks, a resolve succeeds exactly when the rule's time has not come, the uses made of it so
      far are within its limit, and no cleanup came before for which its time had come; and it
      returns the rule with all those uses and its own. */
  lemma ResolvesWhileItLasts(t: Table, es: seq<Event>, code: string, from: nat, n: nat)
    requires from <= n < |es| && es[n].op == Visit(code)
    requires code in After(t, es, from, true) && LeavesAlone(es, code, from, n)
    ensures var rule, reply := After(t, es, from, true)[code], ReplyTo(t, es, n, true);
            var uses := Uses(t, es, code, from, n);
            && (reply.Given? <==> Lasts(rule, es[n].now, uses) && !CleanedAway(es, code, rule, from, n))
            && (reply.Given? ==>
                  reply.rule == rule.(usedCount := rule.usedCount + uses + 1, lastUsedAt := Some(es[n].now)))
  {
    RuleIsTraced(t, es, code, from, n);
  }

  /** No cleanup matters when none that is offered the rule has a later time than the resolve. */
  lemma ResolvesUntilItExpires(t: Table, es: seq<Event>, code: string, from: nat, n: nat)
    requires from <= n < |es| && es[n].op == Visit(code)
    requires code in After(t, es, from, true) && LeavesAlone(es, code, from, n) && CleanedInTime(es, from, n, code)
    ensures ReplyTo(t, es, n, true).Given?
            <==> Lasts(After(t, es, from, true)[code], es[n].now, Uses(t, es, code, from, n))
  {
    ResolvesWhileItLasts(t, es, code, from, n);
  }

  /** What a client hears of a rule after `uses` uses that is still in the table, by its fields. */
  ghost predicate AnswersFor(rule: Rule, uses: nat, now: int, reply: Reply) {
    if rule.expiresAt.Some? && rule.expiresAt.value <= now then
      && reply.Failed? && reply.error.Expired? && reply.error.reason == TimeToLive
      && reply.error.rule == rule.(usedCount := rule.usedCount + uses, lastUsedAt := reply.error.rule.lastUsedAt)
    else if rule.maxUsages.Some? && rule.maxUsages.value <= rule.usedCount + uses then
      && reply.Failed? && reply.error.Expired? && reply.error.reason == MaxUsages
      && reply.error.rule == rule.(usedCount := rule.usedCount + uses, lastUsedAt := reply.error.rule.lastUsedAt)
    else reply == Given(rule.(usedCount := rule.usedCount + uses + 1, lastUsedAt := Some(now)))
  }

  /** In every history that leaves a rule alone, how each resolve of it is answered: not found once a
      cleanup has taken it, expired for its time or for its uses, or with the rule. */
  lemma ResolveAnswers(t: Table, es: seq<Event>, code: string, from: nat, n: nat)
    requires from <= n < |es| && es[n].op == Visit(code)
    requires code in After(t, es, from, true) && LeavesAlone(es, code, from, n)
    ensures var reply := ReplyTo(t, es, n, true);
            if TakenAway(t, es, code, from, n) then reply == Failed(NotFound)
            else AnswersFor(After(t, es, from, true)[code], Uses(t, es, code, from, n), es[n].now, reply)
  {
    RuleIsTraced(t, es, code, from, n);
  }
}
