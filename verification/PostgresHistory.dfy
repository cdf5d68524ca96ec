/** What cleanups change for the clients of the Postgres store, over whole runs. */
module PostgresHistory {
  import opened Lifecycle
  import opened PostgresCleanup
  import opened PostgresProofs
  import opened PostgresStore
  import opened Prelude
  import opened Rules

  /** The operations of a run in the order in which they took effect, its cleanups marked as extra. */
  function Events(h: seq<Entry>): (es: seq<Event>)
    ensures |es| == |h| && ExtrasClean(es)
    ensures forall i :: 0 <= i < |h| ==> es[i] == h[i].event.(extra := h[i].event.op.Clean?)
  {
    seq(|h|, i requires 0 <= i < |h| => h[i].event.(extra := h[i].event.op.Clean?))
  }

  lemma {:induction false} ReplayIsAfter(h: seq<Entry>, n: nat)
    requires n <= |h|
    ensures Replay(h[..n]) == After(map[], Events(h), n, true)
    decreases n
  {
    if n > 0 {
      ReplayIsAfter(h, n - 1);
      assert h[..n][..n - 1] == h[..n - 1];
    }
  }

  lemma {:induction false} TruthfulAt(h: seq<Entry>, n: nat)
    requires n < |h| && Truthful(h)
    ensures var e := h[n].event;
            h[n].told == Failed(Unavailable) || h[n].told == Apply(Replay(h[..n]), e.now, e.op).1
    decreases |h|
  {
    var front := h[..|h| - 1];
    if n < |front| {
      TruthfulAt(front, n);
      assert front[..n] == h[..n];
    }
  }

  /** In every run, a client is told what a table that takes the operations one at a time answers,
      unless it is told nothing. */
  lemma RunsAnswerLikeATable(run: seq<Step>, n: nat)
    requires Exec(run).Some? && n < |History(run)|
    ensures var h := History(run);
            h[n].told == Failed(Unavailable) || h[n].told == ReplyTo(map[], Events(h), n, true)
  {
    var h := History(run);
    EveryRunIsSequential(run);
    TruthfulAt(h, n);
    ReplayIsAfter(h, n);
  }

  /** In every run in which no create meets a rule that a cleanup has taken, the answers are those
      that the operations would get without cleanups, except that a rule may be reported as not
      found when it had expired for a cleanup that took effect before. */
  lemma CleanupsOfRunsTakeOnlyExpired(run: seq<Step>, n: nat)
    requires Exec(run).Some? && n < |History(run)| && !History(run)[n].event.op.Clean?
    requires ReusesNoTakenCode(map[], Events(History(run)))
    ensures var h, es := History(run), Events(History(run));
            h[n].told == Failed(Unavailable) || SameOrGone(es, n, ReplyTo(map[], es, n, false), h[n].told)
  {
    RunsAnswerLikeATable(run, n);
    CleanupsTakeOnlyExpired(map[], Events(History(run)), n);
  }

  /** In particular a resolve succeeds exactly when it would without cleanups, and with the same
      rule, if no cleanup that took effect before and took a row under its code has a later time. */
  lemma ResolvesOfRunsSurviveCleanups(run: seq<Step>, n: nat, code: string)
    requires Exec(run).Some? && n < |History(run)| && History(run)[n].event.op == Visit(code)
    requires ReusesNoTakenCode(map[], Events(History(run))) && CleanedInTime(Events(History(run)), 0, n, code)
    ensures var h, es := History(run), Events(History(run));
            var plain := ReplyTo(map[], es, n, false);
            h[n].told == Failed(Unavailable) || (plain.Given? || h[n].told.Given? ==> h[n].told == plain)
  {
    RunsAnswerLikeATable(run, n);
    ResolvesSurviveCleanups(map[], Events(History(run)), n, code);
  }

  /** A cleanup that took effect before the resolve, took a row under its code, and has a time at
      which the rule had timed out although it has not at the time of the resolve. */
  ghost predicate TookTooSoon(es: seq<Event>, code: string, rule: Rule, from: nat, n: nat)
    requires n < |es|
  {
    && rule.expiresAt.Some?
    && exists j :: from <= j < n && Cleans(es[j], code) && es[n].now < rule.expiresAt.value <= es[j].now
  }

  /** The exact condition, for a rule that is in the table after `from` operations of a run and is
      then left alone: a resolve that hears an answer succeeds exactly when the rule's time has not
      come, it has uses left, and no cleanup took it too soon. */
  lemma RunResolvesIff(run: seq<Step>, code: string, from: nat, n: nat)
    requires Exec(run).Some? && from <= n < |History(run)| && History(run)[n].event.op == Visit(code)
    requires code in Replay(History(run)[..from]) && LeavesAlone(Events(History(run)), code, from, n)
    requires History(run)[n].told != Failed(Unavailable)
    ensures var h, es := History(run), Events(History(run));
            var rule, uses := Replay(h[..from])[code], Uses(map[], es, code, from, n);
            h[n].told.Given? <==> Lasts(rule, h[n].event.now, uses) && !TookTooSoon(es, code, rule, from, n)
  {
    var h, es := History(run), Events(History(run));
    ReplayIsAfter(h, from);
    RunsAnswerLikeATable(run, n);
    ResolvesWhileItLasts(map[], es, code, from, n);
    if !TimedOut(Replay(h[..from])[code], es[n].now) {
      TooSoonIsOvertaken(es, code, Replay(h[..from])[code], from, n);
    }
  }

  /** How each resolve of a run that hears an answer is answered, for such a rule: not found once a
      cleanup has taken it, expired for its time or for its uses, or with the rule. */
  lemma RunAnswersResolves(run: seq<Step>, code: string, from: nat, n: nat)
    requires Exec(run).Some? && from <= n < |History(run)| && History(run)[n].event.op == Visit(code)
    requires code in Replay(History(run)[..from]) && LeavesAlone(Events(History(run)), code, from, n)
    requires History(run)[n].told != Failed(Unavailable)
    ensures var h, es := History(run), Events(History(run));
            && code in After(map[], es, from, true) && After(map[], es, from, true)[code] == Replay(h[..from])[code]
            && if TakenAway(map[], es, code, from, n) then h[n].told == Failed(NotFound)
               else
                 AnswersFor(Replay(h[..from])[code], Uses(map[], es, code, from, n), h[n].event.now, h[n].told)
  {
    ReplayIsAfter(History(run), from);
    RunsAnswerLikeATable(run, n);
    ResolveAnswers(map[], Events(History(run)), code, from, n);
  }

  lemma TooSoonIsOvertaken(es: seq<Event>, code: string, rule: Rule, from: nat, n: nat)
    requires from <= n < |es| && !TimedOut(rule, es[n].now)
    ensures CleanedAway(es, code, rule, from, n) <==> TookTooSoon(es, code, rule, from, n)
  {
  }

  // ---------------------------------------------------------------- a clock that never runs backwards

  /** The clock is read when a resolve and when a cleanup begins. */
  function Reading(step: Step): Option<int> {
    match step
    case Begin(_, _, now) => Some(now)
    case SweepBegin(_, now) => Some(now)
    case _ => None
  }

  ghost predicate ClockNeverRunsBackwards(run: seq<Step>) {
    forall i, j :: 0 <= i <= j < |run| && Reading(run[i]).Some? && Reading(run[j]).Some? ==>
      Reading(run[i]).value <= Reading(run[j]).value
  }

  const BRIEF := Rule("a", "", 0, Some(10), None, 0, None)

  function Opening(): seq<Step> {
    [CreateRule(BRIEF, true), Begin(1, "a", 9)]
  }

  function Selecting(): seq<Step> {
    [SelectForUpdate(1), Check(1)]
  }

  function Committing(): seq<Step> {
    [Update(1), Commit(1, true)]
  }

  function CleaningUp(): seq<Step> {
    [SweepBegin(0, 10), SweepRow(0, "a")]
  }

  function SelectingLate(): seq<Step> {
    [SweepCommit(0, true), SelectForUpdate(1)]
  }

  /** The resolve finds its row at once. */
  function PromptRun(): seq<Step> {
    Opening() + Selecting() + Committing()
  }

  /** A whole cleanup comes between the resolve's reading of the clock and its first statement. */
  function LateRun(): seq<Step> {
    Opening() + CleaningUp() + SelectingLate()
  }

  lemma ClocksRunForwards()
    ensures ClockNeverRunsBackwards(PromptRun()) && ClockNeverRunsBackwards(LateRun())
    ensures Reading(LateRun()[1]) == Some(9) && Reading(LateRun()[2]) == Some(10)
  {
    assert LateRun()[1] == Opening()[1] && LateRun()[2] == CleaningUp()[0];
    forall i | 0 <= i < 6 ensures Reading(PromptRun()[i]).Some? ==> i == 1 {
      assert PromptRun()[i]
          == if i < 2 then Opening()[i] else if i < 4 then Selecting()[i - 2] else Committing()[i - 4];
    }
    forall i | 0 <= i < 6
      ensures Reading(LateRun()[i]).Some? ==> Reading(LateRun()[i]).value == if i < 2 then 9 else 10
    {
      assert LateRun()[i]
          == if i < 2 then Opening()[i] else if i < 4 then CleaningUp()[i - 2] else SelectingLate()[i - 4];
    }
  }

  predicate IsOpen(s: State) {
    s.rows == map["a" := Row(BRIEF, 0)] && s.locks == map[] && s.txs == map[1 := Begun("a", 9)]
  }

  lemma OpeningStates() returns (states: seq<State>)
    ensures Passes(Opening(), states) && states[0] == INITIAL && IsOpen(states[2])
  {
    var s1 := Next(INITIAL, CreateRule(BRIEF, true));
    var s2 := Next(s1, Begin(1, "a", 9));
    PassesTwo(INITIAL, CreateRule(BRIEF, true), s1, Begin(1, "a", 9), s2);
    states := [INITIAL, s1, s2];
  }

  lemma SelectingStates(s: State) returns (states: seq<State>)
    requires IsOpen(s)
    ensures Passes(Selecting(), states) && states[0] == s
    ensures 1 in states[2].txs && states[2].txs[1] == Checked("a", 9, Row(BRIEF, 0))
  {
    var s1 := Next(s, SelectForUpdate(1));
    assert s1.txs[1] == Locked("a", 9, Row(BRIEF, 0));
    var s2 := Next(s1, Check(1));
    PassesTwo(s, SelectForUpdate(1), s1, Check(1), s2);
    states := [s, s1, s2];
  }

  lemma CommittingStates(s: State) returns (states: seq<State>)
    requires 1 in s.txs && s.txs[1] == Checked("a", 9, Row(BRIEF, 0))
    ensures Passes(Committing(), states) && states[0] == s
    ensures Enabled(states[1], Commit(1, true)) && Answer(states[1], Commit(1, true)) == Some(Given(Used(BRIEF, 9)))
  {
    var s1 := Next(s, Update(1));
    assert s1.txs[1] == Updated("a", 9, Row(BRIEF, 0));
    var s2 := Next(s1, Commit(1, true));
    PassesTwo(s, Update(1), s1, Commit(1, true), s2);
    states := [s, s1, s2];
  }

  predicate IsSwept(s: State) {
    && s.rows.Keys == {"a"} && (forall code :: code in s.locks ==> s.locks[code] == 0) && s.txs.Keys == {0, 1}
    && s.txs[0] == Sweeping(10, map["a" := 0], {"a"}) && s.txs[1] == Begun("a", 9)
  }

  lemma CleaningUpStates(s: State) returns (states: seq<State>)
    requires IsOpen(s)
    ensures Passes(CleaningUp(), states) && states[0] == s && IsSwept(states[2])
  {
    var s1 := Next(s, SweepBegin(0, 10));
    assert s1.txs[0] == Sweeping(10, map["a" := 0], {});
    var s2 := Next(s1, SweepRow(0, "a"));
    PassesTwo(s, SweepBegin(0, 10), s1, SweepRow(0, "a"), s2);
    states := [s, s1, s2];
  }

  lemma SelectingLateStates(s: State) returns (states: seq<State>)
    requires IsSwept(s)
    ensures Passes(SelectingLate(), states) && states[0] == s
    ensures Enabled(states[1], SelectForUpdate(1)) && Answer(states[1], SelectForUpdate(1)) == Some(Failed(NotFound))
  {
    var s1 := Next(s, SweepCommit(0, true));
    assert "a" !in s1.rows && "a" !in s1.locks && s1.txs[1] == Begun("a", 9);
    var s2 := Next(s1, SelectForUpdate(1));
    PassesTwo(s, SweepCommit(0, true), s1, SelectForUpdate(1), s2);
    states := [s, s1, s2];
  }

  lemma ThreeParts(a: seq<Step>, b: seq<Step>, c: seq<Step>, p: seq<State>, q: seq<State>, r: seq<State>)
    requires Passes(a, p) && Passes(b, q) && Passes(c, r)
    requires q[0] == p[|a|] && r[0] == q[|b|]
    ensures Passes(a + b + c, p + q[1..] + r[1..])
    ensures ExecFrom(p[0], a + b + c) == Some(r[|c|])
  {
    PassesOn(a, p, b, q);
    PassesOn(a + b, p + q[1..], c, r);
    PassesToTheEnd(a + b + c, p + q[1..] + r[1..]);
  }

  /** A resolve that begins before its rule expires, and finds its row, succeeds. */
  lemma PromptResolveSucceeds() returns (states: seq<State>)
    ensures Passes(PromptRun(), states) && states[0] == INITIAL && |states| == 7
    ensures PromptRun()[..5] + [Commit(1, true)] == PromptRun() && Enabled(states[5], Commit(1, true))
    ensures Answer(states[5], Commit(1, true)) == Some(Given(Used(BRIEF, 9)))
    ensures Exec(PromptRun()) == Some(states[6])
  {
    var a := OpeningStates();
    var b := SelectingStates(a[2]);
    var c := CommittingStates(b[2]);
    ThreeParts(Opening(), Selecting(), Committing(), a, b, c);
    states := a + b[1..] + c[1..];
  }

  /** A clock that never runs backwards is not enough: with a whole cleanup between its beginning and
      its first statement, the same resolve is told that there is no such rule. */
  lemma LateResolveIsLost() returns (states: seq<State>)
    ensures ClockNeverRunsBackwards(LateRun()) && Reading(LateRun()[1]) == Some(9) && Reading(LateRun()[2]) == Some(10)
    ensures Passes(LateRun(), states) && states[0] == INITIAL && |states| == 7
    ensures LateRun()[..5] + [SelectForUpdate(1)] == LateRun() && Enabled(states[5], SelectForUpdate(1))
    ensures Answer(states[5], SelectForUpdate(1)) == Some(Failed(NotFound))
    ensures Exec(LateRun()) == Some(states[6])
  {
    var a := OpeningStates();
    var b := CleaningUpStates(a[2]);
    var c := SelectingLateStates(b[2]);
    ThreeParts(Opening(), CleaningUp(), SelectingLate(), a, b, c);
    ClocksRunForwards();
    states := a + b[1..] + c[1..];
  }
}
