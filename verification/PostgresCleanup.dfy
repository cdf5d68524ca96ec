/** What a cleanup of the Postgres store does while other clients act between its row locks. */
module PostgresCleanup {
  import opened Lifecycle
  import opened PostgresProofs
  import opened PostgresStore
  import opened Prelude
  import opened Rules

  // ---------------------------------------------------------------- a cleanup keeps to its rows

  predicate Sweeps(t: Tx, now: int, due: map<string, nat>) {
    t.Answered? || (t.Sweeping? && t.now == now && t.due == due)
  }

  lemma SweepStep(s: State, step: Step, tx: nat, now: int, due: map<string, nat>)
    requires Enabled(s, step) && tx in s.txs && Sweeps(s.txs[tx], now, due)
    ensures tx in Next(s, step).txs && Sweeps(Next(s, step).txs[tx], now, due)
  {
    if SingleStatement(step) || step.tx != tx {
      OthersKeepTheirPlace(s, step, tx);
    }
  }

  lemma {:induction false} SweepPursuesItsRows(s: State, run: seq<Step>, tx: nat, now: int, due: map<string, nat>)
    requires tx in s.txs && Sweeps(s.txs[tx], now, due) && ExecFrom(s, run).Some?
    ensures tx in ExecFrom(s, run).value.txs && Sweeps(ExecFrom(s, run).value.txs[tx], now, due)
    decreases run
  {
    if run != [] {
      var front, last := run[..|run| - 1], run[|run| - 1];
      SweepPursuesItsRows(s, front, tx, now, due);
      SweepStep(ExecFrom(s, front).value, last, tx, now, due);
    }
  }

  // ---------------------------------------------------------------- what a cleanup waits for

  /** A row that a cleanup found expired stays expired for it while it is the same rule. */
  ghost predicate DueStaysExpired(s: State, t: Tx) {
    t.Sweeping? ==>
      forall code :: code in t.due ==>
        && t.due[code] < s.nextId
        && (code in s.rows && s.rows[code].id == t.due[code] ==> IsExpired(s.rows[code].rule, t.now))
  }

  ghost predicate DuesStayExpired(s: State) {
    forall tx {:trigger DueStaysExpired(s, s.txs[tx])} :: tx in s.txs ==> DueStaysExpired(s, s.txs[tx])
  }

  /** A step leaves a rule that is still there as it was, counts one use of it, or replaces it by a
      new one. */
  lemma RowAfterStep(s: State, step: Step, code: string)
    requires Inv(s) && Enabled(s, step) && code in Next(s, step).rows
    ensures s.nextId <= Next(s, step).nextId
    ensures var row := Next(s, step).rows[code];
            if code in s.rows && s.rows[code].id == row.id then
              row.rule == s.rows[code].rule || exists now :: row.rule == Used(s.rows[code].rule, now)
            else row.id == s.nextId
  {
    if step.Commit? && s.txs[step.tx].code == code {
      assert code in s.rows;
      assert Next(s, step).rows[code].rule == Used(s.rows[code].rule, s.txs[step.tx].now);
    }
  }

  lemma DueKept(s: State, step: Step, t: Tx)
    requires Inv(s) && Enabled(s, step) && DueStaysExpired(s, t)
    ensures DueStaysExpired(Next(s, step), t)
  {
    var rows := Next(s, step).rows;
    if t.Sweeping? {
      forall code | code in t.due
        ensures t.due[code] < Next(s, step).nextId
        ensures code in rows && rows[code].id == t.due[code] ==> IsExpired(rows[code].rule, t.now)
      {
        if code in rows {
          RowAfterStep(s, step, code);
        }
      }
    }
  }

  /** A cleanup begins with rows that have expired, and does not change its mind. */
  lemma DueAtBegin(s: State, tx: nat, now: int)
    requires Inv(s) && tx !in s.txs
    ensures DueStaysExpired(Next(s, SweepBegin(tx, now)), Next(s, SweepBegin(tx, now)).txs[tx])
  {
  }

  lemma DueStep(s: State, step: Step)
    requires Inv(s) && Enabled(s, step) && DuesStayExpired(s)
    ensures DuesStayExpired(Next(s, step))
  {
    var after := Next(s, step);
    forall tx | tx in after.txs ensures DueStaysExpired(after, after.txs[tx]) {
      if step.SweepBegin? && step.tx == tx {
        DueAtBegin(s, tx, step.now);
      } else if after.txs[tx].Sweeping? {
        assert DueStaysExpired(s, s.txs[tx]);
        DueKept(s, step, s.txs[tx]);
      }
    }
  }

  lemma {:induction false} DuesHold(run: seq<Step>)
    requires Exec(run).Some?
    ensures DuesStayExpired(Exec(run).value)
  {
    if run != [] {
      var front, last := run[..|run| - 1], run[|run| - 1];
      DuesHold(front);
      InvHolds(front);
      DueStep(Exec(front).value, last);
    }
  }

  /** In every reachable state, a row that a cleanup must still delete can be taken by it at once,
      unless another transaction has locked it: a cleanup waits for nothing else. */
  lemma CleanupWaitsOnlyForLocks(run: seq<Step>, tx: nat, confirmed: bool)
    requires Exec(run).Some? && tx in Exec(run).value.txs && Exec(run).value.txs[tx].Sweeping?
    ensures var s := Exec(run).value;
            || Enabled(s, SweepCommit(tx, confirmed))
            || exists code :: code in s.txs[tx].due &&
                 (Enabled(s, SweepRow(tx, code)) || (code in s.locks && s.locks[code] != tx))
  {
    var s := Exec(run).value;
    var t := s.txs[tx];
    DuesHold(run);
    InvHolds(run);
    assert DueStaysExpired(s, t);
    if !Enabled(s, SweepCommit(tx, confirmed)) {
      var code :| code in t.due && code !in t.held && code in s.rows && s.rows[code].id == t.due[code];
      assert code in s.locks && s.locks[code] == tx ==> HoldsLock(t, code);
      assert Enabled(s, SweepRow(tx, code)) || (code in s.locks && s.locks[code] != tx);
    }
  }

  // ---------------------------------------------------------------- what a cleanup deletes

  /** What holds when a cleanup that began in `s` commits after the steps `between`. */
  lemma AtSweepCommit(s: State, tx: nat, now: int, between: seq<Step>, confirmed: bool)
    requires Inv(s) && Enabled(s, SweepBegin(tx, now))
    requires ExecFrom(Next(s, SweepBegin(tx, now)), between).Some?
    requires Enabled(ExecFrom(Next(s, SweepBegin(tx, now)), between).value, SweepCommit(tx, confirmed))
    ensures var begun := Next(s, SweepBegin(tx, now));
            var mid := ExecFrom(begun, between).value;
            && Inv(mid) && mid.txs[tx].Sweeping? && mid.txs[tx].now == now && mid.txs[tx].due == begun.txs[tx].due
            && SnapshotIsCurrent(mid.rows, mid.txs[tx])
  {
    var begun := Next(s, SweepBegin(tx, now));
    LocksStayHeld(s, SweepBegin(tx, now));
    SnapshotsStayCurrent(s, SweepBegin(tx, now));
    RowsStayBooked(s, SweepBegin(tx, now));
    InvHoldsFrom(begun, between);
    SweepPursuesItsRows(begun, between, tx, now, begun.txs[tx].due);
    var mid := ExecFrom(begun, between).value;
    assert SnapshotIsCurrent(mid.rows, mid.txs[tx]);
  }

  /** Whatever happens while a cleanup runs, when it commits every rule that had expired when it
      began is gone, and every rule it deletes has expired. */
  lemma CleanupIsThorough(s: State, tx: nat, now: int, between: seq<Step>, confirmed: bool, code: string)
    requires Inv(s) && Enabled(s, SweepBegin(tx, now))
    requires ExecFrom(Next(s, SweepBegin(tx, now)), between).Some?
    requires Enabled(ExecFrom(Next(s, SweepBegin(tx, now)), between).value, SweepCommit(tx, confirmed))
    ensures var mid := ExecFrom(Next(s, SweepBegin(tx, now)), between).value;
            var end := Next(mid, SweepCommit(tx, confirmed));
            && (code in s.rows && IsExpired(s.rows[code].rule, now) ==>
                  code !in end.rows || end.rows[code].id != s.rows[code].id)
            && (code in mid.rows && code !in end.rows ==> IsExpired(mid.rows[code].rule, now))
            && (code in mid.rows && code in end.rows ==> end.rows[code] == mid.rows[code])
  {
    AtSweepCommit(s, tx, now, between, confirmed);
  }

  /** The rule under a code had expired when the cleanup began in `s`, and is still the same rule. */
  predicate ExpiredSince(s: State, mid: State, now: int, code: string) {
    && code in s.rows && IsExpired(s.rows[code].rule, now)
    && code in mid.rows && mid.rows[code].id == s.rows[code].id
  }

  /** A cleanup deletes exactly the rules that had expired when it began and are still there, and
      answers with their number. */
  lemma CleanupDeletesExactly(s: State, tx: nat, now: int, between: seq<Step>, confirmed: bool)
    requires Inv(s) && Enabled(s, SweepBegin(tx, now))
    requires ExecFrom(Next(s, SweepBegin(tx, now)), between).Some?
    requires Enabled(ExecFrom(Next(s, SweepBegin(tx, now)), between).value, SweepCommit(tx, confirmed))
    ensures var mid := ExecFrom(Next(s, SweepBegin(tx, now)), between).value;
            var commit := SweepCommit(tx, confirmed);
            var deleted := set code | code in mid.rows && ExpiredSince(s, mid, now, code);
            && mid.txs[tx].held == deleted
            && Next(mid, commit).rows == mid.rows - deleted
            && Answer(mid, commit) == Some(Heard(commit, Cleaned(|deleted|)))
  {
    AtSweepCommit(s, tx, now, between, confirmed);
    var mid := ExecFrom(Next(s, SweepBegin(tx, now)), between).value;
    var deleted := set code | code in mid.rows && ExpiredSince(s, mid, now, code);
    assert mid.txs[tx].held == deleted;
  }

  /** A cleanup's commit deletes everything expired at that moment, as one atomic cleanup would,
      exactly when every rule expired by then had already expired when the cleanup began. */
  lemma CleanupIsAtomicIff(s: State, tx: nat, now: int, between: seq<Step>)
    requires Inv(s) && Enabled(s, SweepBegin(tx, now))
    requires ExecFrom(Next(s, SweepBegin(tx, now)), between).Some?
    requires Enabled(ExecFrom(Next(s, SweepBegin(tx, now)), between).value, SweepCommit(tx, true))
    ensures var mid := ExecFrom(Next(s, SweepBegin(tx, now)), between).value;
            var commit := SweepCommit(tx, true);
            var expired := ExpiredCodes(Visible(mid), now);
            Visible(Next(mid, commit)) == Visible(mid) - expired && Answer(mid, commit) == Some(Cleaned(|expired|))
            <==> forall code :: code in expired ==> ExpiredSince(s, mid, now, code)
  {
    var mid := ExecFrom(Next(s, SweepBegin(tx, now)), between).value;
    var held, expired := mid.txs[tx].held, ExpiredCodes(Visible(mid), now);
    AtSweepCommit(s, tx, now, between, true);
    HeldRowsAreExpired(mid, tx);
    DeletingIsVisible(mid, held);
    CleanupDeletesExactly(s, tx, now, between, true);
    assert expired <= Visible(mid).Keys;
    if Visible(mid) - held == Visible(mid) - expired {
      SameRest(Visible(mid), held, expired);
    }
    if forall code :: code in expired ==> ExpiredSince(s, mid, now, code) {
      assert held == expired;
    }
  }

  lemma SameRest(t: Table, a: set<string>, b: set<string>)
    requires a <= t.Keys && b <= t.Keys && t - a == t - b
    ensures a == b
  {
    forall code ensures code in a <==> code in b {
      assert code in t ==> (code in t - a <==> code in t - b);
    }
  }

  // ---------------------------------------------------------------- a cleanup that misses rules

  predicate Leads(s: State, step: Step, after: State) {
    Enabled(s, step) && after == Next(s, step)
  }

  predicate LeadsOn(run: seq<Step>, states: seq<State>, k: nat)
    requires k < |run| && |states| == |run| + 1
  {
    Leads(states[k], run[k], states[k + 1])
  }

  /** The states that steps pass through, from the first of them. */
  ghost predicate Passes(run: seq<Step>, states: seq<State>) {
    && |states| == |run| + 1
    && forall k {:trigger LeadsOn(run, states, k)} :: 0 <= k < |run| ==> LeadsOn(run, states, k)
  }

  lemma {:induction false} PassesThrough(run: seq<Step>, states: seq<State>, k: nat)
    requires Passes(run, states) && k <= |run|
    ensures ExecFrom(states[0], run[..k]) == Some(states[k])
    decreases k
  {
    if k > 0 {
      PassesThrough(run, states, k - 1);
      assert LeadsOn(run, states, k - 1);
      assert run[..k][..k - 1] == run[..k - 1];
    }
  }

  /** Such states are those the run leads to. */
  lemma PassesToTheEnd(run: seq<Step>, states: seq<State>)
    requires Passes(run, states)
    ensures ExecFrom(states[0], run) == Some(states[|run|])
  {
    PassesThrough(run, states, |run|);
    assert run[..|run|] == run;
  }

  lemma PassesOn(run: seq<Step>, states: seq<State>, more: seq<Step>, later: seq<State>)
    requires Passes(run, states) && Passes(more, later) && later[0] == states[|run|]
    ensures Passes(run + more, states + later[1..])
  {
    forall k | 0 <= k < |run + more|
      ensures LeadsOn(run + more, states + later[1..], k)
    {
      if k < |run| {
        assert LeadsOn(run, states, k);
      } else {
        assert LeadsOn(more, later, k - |run|);
      }
    }
  }

  lemma PassesTwo(s: State, step: Step, s1: State, next: Step, s2: State)
    requires Leads(s, step, s1) && Leads(s1, next, s2)
    ensures Passes([step, next], [s, s1, s2])
  {
    assert LeadsOn([step, next], [s, s1, s2], 0);
    assert LeadsOn([step, next], [s, s1, s2], 1);
  }

  lemma PassesThree(s: State, step: Step, s1: State, next: Step, s2: State, last: Step, s3: State)
    requires Leads(s, step, s1) && Leads(s1, next, s2) && Leads(s2, last, s3)
    ensures Passes([step, next, last], [s, s1, s2, s3])
  {
    assert LeadsOn([step, next, last], [s, s1, s2, s3], 0);
    assert LeadsOn([step, next, last], [s, s1, s2, s3], 1);
    assert LeadsOn([step, next, last], [s, s1, s2, s3], 2);
  }

  /** A resolve that nobody disturbs, step by step: it selects its row, checks it, updates it and
      commits. */
  lemma ResolveSelects(s: State, tx: nat, code: string, now: int)
    requires tx !in s.txs && code !in s.locks && code in s.rows
    ensures var s1 := s.(txs := s.txs[tx := Begun(code, now)]);
            var s2 := s.(txs := s.txs[tx := Locked(code, now, s.rows[code])], locks := s.locks[code := tx]);
            Leads(s, Begin(tx, code, now), s1) && Leads(s1, SelectForUpdate(tx), s2)
  {
    assert s.txs[tx := Begun(code, now)][tx := Locked(code, now, s.rows[code])]
        == s.txs[tx := Locked(code, now, s.rows[code])];
  }

  lemma ResolveChecks(s: State, tx: nat)
    requires tx in s.txs && s.txs[tx].Locked? && !IsExpired(s.txs[tx].snap.rule, s.txs[tx].now)
    ensures var t := s.txs[tx];
            Leads(s, Check(tx), s.(txs := s.txs[tx := Checked(t.code, t.now, t.snap)]))
  {
  }

  lemma ResolveUpdates(s: State, tx: nat)
    requires tx in s.txs && s.txs[tx].Checked?
    ensures var t := s.txs[tx];
            Leads(s, Update(tx), s.(txs := s.txs[tx := Updated(t.code, t.now, t.snap)]))
  {
  }

  lemma ResolveCommits(s: State, tx: nat)
    requires tx in s.txs && s.txs[tx].Updated? && s.txs[tx].code in s.rows
    requires forall code :: code in s.locks ==> s.locks[code] == tx
    ensures var t := s.txs[tx];
            var after := Next(s, Commit(tx, true));
            && Leads(s, Commit(tx, true), after)
            && after.locks == map[]
            && after.rows == s.rows[t.code := s.rows[t.code].(rule := Used(s.rows[t.code].rule, t.now))]
            && after.txs == s.txs[tx := after.txs[tx]]
  {
  }

  /** A rule that has expired, and one that allows one use. */
  const STALE := Rule("a", "", 0, Some(0), None, 0, None)
  const SINGLE := Rule("c", "", 0, None, Some(1), 0, None)

  /** Some rule has expired. */
  predicate Overdue(s: State, now: int) {
    ExpiredCodes(Visible(s), now) != {}
  }

  lemma OverdueBy(s: State, code: string, now: int)
    requires code in s.rows && IsExpired(s.rows[code].rule, now)
    ensures Overdue(s, now)
  {
    assert code in ExpiredCodes(Visible(s), now);
  }

  ghost predicate AllOverdue(states: seq<State>, now: int) {
    forall k {:trigger Overdue(states[k], now)} :: 0 <= k < |states| ==> Overdue(states[k], now)
  }

  lemma OverdueOn(states: seq<State>, later: seq<State>, now: int)
    requires AllOverdue(states, now) && AllOverdue(later, now)
    ensures AllOverdue(states + later, now)
  {
    forall k | 0 <= k < |states + later|
      ensures Overdue((states + later)[k], now)
    {
      if k < |states| {
        assert Overdue(states[k], now);
      } else {
        assert Overdue(later[k - |states|], now);
      }
    }
  }

  function BeginningSteps(): seq<Step> {
    [CreateRule(STALE, true), CreateRule(SINGLE, true), SweepBegin(0, 1)]
  }

  function SelectingSteps(): seq<Step> {
    [Begin(1, "c", 1), SelectForUpdate(1)]
  }

  function UsingSteps(): seq<Step> {
    [Check(1), Update(1), Commit(1, true)]
  }

  function EndingSteps(): seq<Step> {
    [DeleteRule("a", true), SweepCommit(0, true)]
  }

  /** A cleanup begins when the first has expired; the second is used up, and the first is deleted,
      before the cleanup comes to its row. */
  function MissingRun(): seq<Step> {
    BeginningSteps() + SelectingSteps() + UsingSteps() + EndingSteps()
  }

  lemma MissingRunBegins() returns (states: seq<State>)
    ensures Passes(BeginningSteps(), states) && states[0] == INITIAL && AllOverdue(states[3..], 1)
    ensures var s := states[3];
            && s.locks == map[] && s.txs.Keys == {0} && s.txs[0] == Sweeping(1, map["a" := 0], {})
            && s.rows.Keys == {"a", "c"} && s.rows["a"] == Row(STALE, 0) && s.rows["c"] == Row(SINGLE, 1)
  {
    var s1 := Next(INITIAL, CreateRule(STALE, true));
    var s2 := Next(s1, CreateRule(SINGLE, true));
    var s3 := Next(s2, SweepBegin(0, 1));
    assert s3.txs[0].due.Keys == {"a"};
    PassesThree(INITIAL, CreateRule(STALE, true), s1, CreateRule(SINGLE, true), s2, SweepBegin(0, 1), s3);
    OverdueBy(s3, "a", 1);
    states := [INITIAL, s1, s2, s3];
  }

  lemma MissingRunSelects(s: State) returns (states: seq<State>)
    requires s.locks == map[] && 1 !in s.txs && "c" in s.rows && s.rows["c"].rule == SINGLE
    requires "a" in s.rows && s.rows["a"].rule == STALE
    ensures Passes(SelectingSteps(), states) && states[0] == s && AllOverdue(states[1..], 1)
    ensures states[2].rows == s.rows && states[2].locks == map["c" := 1]
    ensures states[2].txs == s.txs[1 := Locked("c", 1, s.rows["c"])]
  {
    ResolveSelects(s, 1, "c", 1);
    var s1 := Next(s, Begin(1, "c", 1));
    var s2 := Next(s1, SelectForUpdate(1));
    PassesTwo(s, Begin(1, "c", 1), s1, SelectForUpdate(1), s2);
    OverdueBy(s1, "a", 1);
    OverdueBy(s2, "a", 1);
    states := [s, s1, s2];
  }

  lemma MissingRunUses(s: State) returns (states: seq<State>)
    requires s.locks == map["c" := 1] && "c" in s.rows && s.rows["c"].rule == SINGLE
    requires 1 in s.txs && s.txs[1] == Locked("c", 1, s.rows["c"])
    requires "a" in s.rows && s.rows["a"].rule == STALE
    ensures Passes(UsingSteps(), states) && states[0] == s
    ensures AllOverdue(states[1..], 1)
    ensures states[3].locks == map[] && "c" in states[3].rows && states[3].rows["c"].rule == Used(SINGLE, 1)
    ensures 1 in states[3].txs && states[3].txs == s.txs[1 := states[3].txs[1]]
  {
    ResolveChecks(s, 1);
    var s1 := Next(s, Check(1));
    ResolveUpdates(s1, 1);
    var s2 := Next(s1, Update(1));
    ResolveCommits(s2, 1);
    var s3 := Next(s2, Commit(1, true));
    PassesThree(s, Check(1), s1, Update(1), s2, Commit(1, true), s3);
    OverdueBy(s1, "a", 1);
    OverdueBy(s2, "a", 1);
    OverdueBy(s3, "c", 1);
    states := [s, s1, s2, s3];
  }

  lemma MissingRunEnds(s: State) returns (states: seq<State>)
    requires s.locks == map[] && 0 in s.txs && s.txs[0] == Sweeping(1, map["a" := 0], {})
    requires "c" in s.rows && s.rows["c"].rule == Used(SINGLE, 1)
    ensures Passes(EndingSteps(), states) && states[0] == s && AllOverdue(states[1..], 1)
    ensures Enabled(states[1], SweepCommit(0, true)) && Answer(states[1], SweepCommit(0, true)) == Some(Cleaned(0))
  {
    var s1 := Next(s, DeleteRule("a", true));
    var s2 := Next(s1, SweepCommit(0, true));
    PassesTwo(s, DeleteRule("a", true), s1, SweepCommit(0, true), s2);
    OverdueBy(s1, "c", 1);
    OverdueBy(s2, "c", 1);
    states := [s, s1, s2];
  }

  lemma MissingRunPasses(a: seq<State>, b: seq<State>, c: seq<State>, d: seq<State>)
    requires Passes(BeginningSteps(), a) && Passes(SelectingSteps(), b) && b[0] == a[3]
    requires Passes(UsingSteps(), c) && c[0] == b[2] && Passes(EndingSteps(), d) && d[0] == c[3]
    ensures Passes(MissingRun(), a + b[1..] + c[1..] + d[1..])
  {
    PassesOn(BeginningSteps(), a, SelectingSteps(), b);
    PassesOn(BeginningSteps() + SelectingSteps(), a + b[1..], UsingSteps(), c);
    PassesOn(BeginningSteps() + SelectingSteps() + UsingSteps(), a + b[1..] + c[1..], EndingSteps(), d);
  }

  lemma MissingRunStates() returns (states: seq<State>)
    ensures Passes(MissingRun(), states) && states[0] == INITIAL
    ensures MissingRun()[2] == SweepBegin(0, 1) && MissingRun()[9..] == [SweepCommit(0, true)]
    ensures Enabled(states[9], SweepCommit(0, true)) && Answer(states[9], SweepCommit(0, true)) == Some(Cleaned(0))
    ensures AllOverdue(states[3..], 1)
  {
    var a := MissingRunBegins();
    var b := MissingRunSelects(a[3]);
    var c := MissingRunUses(b[2]);
    var d := MissingRunEnds(c[3]);
    MissingRunPasses(a, b, c, d);
    states := a + b[1..] + c[1..] + d[1..];
    OverdueOn(a[3..], b[1..], 1);
    OverdueOn(a[3..] + b[1..], c[1..], 1);
    OverdueOn(a[3..] + b[1..] + c[1..], d[1..], 1);
    assert states[3..] == a[3..] + b[1..] + c[1..] + d[1..];
  }

  /** The condition can fail: in this run the cleanup answers that it deleted nothing, although
      some rule had expired at every moment from its start to its end. */
  lemma CleanupMissesRules() returns (states: seq<State>)
    ensures Passes(MissingRun(), states) && states[0] == INITIAL
    ensures |states| == 11 && Exec(MissingRun()) == Some(states[10])
    ensures MissingRun()[2] == SweepBegin(0, 1) && MissingRun()[9..] == [SweepCommit(0, true)]
    ensures Enabled(states[9], SweepCommit(0, true)) && Answer(states[9], SweepCommit(0, true)) == Some(Cleaned(0))
    ensures AllOverdue(states[3..], 1)
  {
    states := MissingRunStates();
    PassesToTheEnd(MissingRun(), states);
  }
}
