/** What every interleaving of the Postgres store guarantees. */
module PostgresProofs {
  import opened Lifecycle
  import opened PostgresStore
  import opened Prelude
  import opened Rules

  // ---------------------------------------------------------------- the invariant is kept

  /** Ending a transaction releases exactly its locks. */
  lemma EndKeepsLocks(s: State, tx: nat, reply: Reply)
    requires LocksAreHeld(s.locks, s.txs) && tx in s.txs
    ensures LocksAreHeld(End(s, tx, reply).locks, End(s, tx, reply).txs)
  {
  }

  /** A transaction may move on with the locks it has. */
  lemma MoveKeepsLocks(locks: map<string, nat>, txs: map<nat, Tx>, tx: nat, t: Tx)
    requires LocksAreHeld(locks, txs)
    requires forall code :: HoldsLock(t, code) <==> tx in txs && HoldsLock(txs[tx], code)
    ensures LocksAreHeld(locks, txs[tx := t])
  {
    forall code | code in locks ensures HoldsLock(txs[tx := t][locks[code]], code) {
      assert HoldsLock(txs[locks[code]], code);
    }
  }

  /** A transaction may take a free lock. */
  lemma AcquireKeepsLocks(locks: map<string, nat>, txs: map<nat, Tx>, tx: nat, t: Tx, code: string)
    requires LocksAreHeld(locks, txs) && tx in txs && code !in locks
    requires forall c :: HoldsLock(t, c) <==> c == code || HoldsLock(txs[tx], c)
    ensures LocksAreHeld(locks[code := tx], txs[tx := t])
  {
    forall c | c in locks ensures HoldsLock(txs[tx := t][locks[c]], c) {
      assert HoldsLock(txs[locks[c]], c);
    }
  }

  lemma LocksStayHeld(s: State, step: Step)
    requires Inv(s) && Enabled(s, step)
    ensures LocksAreHeld(Next(s, step).locks, Next(s, step).txs)
  {
    if SingleStatement(step) {
    } else if Next(s, step).txs[step.tx].Answered? {
      EndKeepsLocks(s, step.tx, Next(s, step).txs[step.tx].reply);
    } else if step.SelectForUpdate? {
      AcquireKeepsLocks(s.locks, s.txs, step.tx, Next(s, step).txs[step.tx], s.txs[step.tx].code);
    } else if step.SweepRow? {
      AcquireKeepsLocks(s.locks, s.txs, step.tx, Next(s, step).txs[step.tx], step.code);
    } else {
      MoveKeepsLocks(s.locks, s.txs, step.tx, Next(s, step).txs[step.tx]);
    }
  }

  /** Changing rows that a transaction has not locked leaves its snapshot current. */
  lemma SnapshotFrame(rows: map<string, Row>, after: map<string, Row>, t: Tx)
    requires SnapshotIsCurrent(rows, t)
    requires forall code :: HoldsLock(t, code) && code in rows ==> code in after && after[code] == rows[code]
    ensures SnapshotIsCurrent(after, t)
  {
    match t {
      case Locked(code, _, _) => assert HoldsLock(t, code);
      case Checked(code, _, _) => assert HoldsLock(t, code);
      case Updated(code, _, _) => assert HoldsLock(t, code);
      case Sweeping(_, _, held) =>
        forall code | code in held ensures code in after && after[code] == rows[code] {
          assert HoldsLock(t, code);
        }
      case _ =>
    }
  }

  lemma CommitChangesItsRow(s: State, step: Step, code: string)
    requires Inv(s) && Enabled(s, step) && step.Commit?
    requires code in s.rows && code in s.locks && s.locks[code] != step.tx
    ensures code in Next(s, step).rows && Next(s, step).rows[code] == s.rows[code]
  {
    var t := s.txs[step.tx];
    assert HoldsLock(t, t.code);
    assert t.code != code;
  }

  lemma SweepDeletesItsRows(s: State, step: Step, code: string)
    requires Inv(s) && Enabled(s, step) && step.SweepCommit?
    requires code in s.rows && code in s.locks && s.locks[code] != step.tx
    ensures code in Next(s, step).rows && Next(s, step).rows[code] == s.rows[code]
  {
    assert code in s.txs[step.tx].held ==> HoldsLock(s.txs[step.tx], code);
  }

  /** Only the locker of a row changes it while it is locked. */
  lemma LockedRowsStay(s: State, step: Step, code: string)
    requires Inv(s) && Enabled(s, step)
    requires code in s.rows && code in s.locks
    requires SingleStatement(step) || s.locks[code] != step.tx
    ensures code in Next(s, step).rows && Next(s, step).rows[code] == s.rows[code]
  {
    if step.Commit? {
      CommitChangesItsRow(s, step, code);
    } else if step.SweepCommit? {
      SweepDeletesItsRows(s, step, code);
    }
  }

  /** A transaction's own step leaves it a current snapshot. */
  lemma OwnSnapshotStays(s: State, step: Step)
    requires Inv(s) && Enabled(s, step)
    requires !SingleStatement(step)
    ensures SnapshotIsCurrent(Next(s, step).rows, Next(s, step).txs[step.tx])
  {
    assert step.tx in s.txs ==> SnapshotIsCurrent(s.rows, s.txs[step.tx]);
  }

  lemma SnapshotsStayCurrent(s: State, step: Step)
    requires Inv(s) && Enabled(s, step)
    ensures SnapshotsAreCurrent(Next(s, step).rows, Next(s, step).txs)
  {
    var s' := Next(s, step);
    forall tx | tx in s'.txs ensures SnapshotIsCurrent(s'.rows, s'.txs[tx]) {
      if !SingleStatement(step) && tx == step.tx {
        OwnSnapshotStays(s, step);
      } else {
        assert tx in s.txs && s'.txs[tx] == s.txs[tx];
        forall code | HoldsLock(s.txs[tx], code) && code in s.rows
          ensures code in s'.rows && s'.rows[code] == s.rows[code]
        {
          LockedRowsStay(s, step, code);
        }
        SnapshotFrame(s.rows, s'.rows, s.txs[tx]);
      }
    }
  }

  lemma CountUseKeepsBook(s: State, code: string, now: int)
    requires RowsAreBooked(s)
    ensures RowsAreBooked(CountUse(s, code, now))
  {
  }

  lemma CreateKeepsBook(s: State, rule: Rule, confirmed: bool)
    requires RowsAreBooked(s)
    ensures RowsAreBooked(Next(s, CreateRule(rule, confirmed)))
  {
  }

  lemma DeletingKeepsBook(s: State, codes: set<string>)
    requires RowsAreBooked(s)
    ensures RowsAreBooked(s.(rows := s.rows - codes))
  {
  }

  lemma RowsStayBooked(s: State, step: Step)
    requires Inv(s) && Enabled(s, step)
    ensures RowsAreBooked(Next(s, step))
  {
    match step {
      case CreateRule(rule, confirmed) => CreateKeepsBook(s, rule, confirmed);
      case DeleteRule(code, _) => DeletingKeepsBook(s, {code});
      case Commit(tx, _) => CountUseKeepsBook(s, s.txs[tx].code, s.txs[tx].now);
      case SweepCommit(tx, _) => DeletingKeepsBook(s, s.txs[tx].held);
      case _ =>
    }
  }

  lemma {:induction false} InvHoldsFrom(start: State, run: seq<Step>)
    requires Inv(start) && ExecFrom(start, run).Some?
    ensures Inv(ExecFrom(start, run).value)
    decreases run
  {
    if run != [] {
      var front, last := run[..|run| - 1], run[|run| - 1];
      InvHoldsFrom(start, front);
      var s := ExecFrom(start, front).value;
      LocksStayHeld(s, last);
      SnapshotsStayCurrent(s, last);
      RowsStayBooked(s, last);
    }
  }

  /** Locks are held by the transactions that think so, and whoever holds a row sees the committed
      row, in every reachable state. */
  lemma InvHolds(run: seq<Step>)
    requires Exec(run).Some?
    ensures Inv(Exec(run).value)
  {
    InvHoldsFrom(INITIAL, run);
  }

  /** No transaction is ever stuck: it can give up, and it can take its next step unless another
      transaction has locked its row.  Anything else can begin at any time, except that a delete
      waits for the lock of its row. */
  lemma TransactionsGoOn(run: seq<Step>, tx: nat, confirmed: bool, code: string, rule: Rule, now: int)
    requires Exec(run).Some?
    ensures var s := Exec(run).value;
            && (tx in s.txs && !s.txs[tx].Answered? ==>
                  && Enabled(s, Abort(tx)) && Next(s, Abort(tx)).txs[tx] == Answered(Failed(Unavailable))
                  && Next(s, Abort(tx)).rows == s.rows)
            && (tx in s.txs && s.txs[tx].Begun? ==>
                  || Enabled(s, SelectForUpdate(tx))
                  || (s.txs[tx].code in s.locks && s.locks[s.txs[tx].code] != tx))
            && (tx in s.txs && s.txs[tx].Locked? ==> Enabled(s, Check(tx)))
            && (tx in s.txs && s.txs[tx].Checked? ==> Enabled(s, Update(tx)))
            && (tx in s.txs && s.txs[tx].Updated? ==> Enabled(s, Commit(tx, confirmed)))
            && (tx !in s.txs ==> Enabled(s, Begin(tx, code, now)) && Enabled(s, SweepBegin(tx, now)))
            && Enabled(s, CreateRule(rule, confirmed)) && Enabled(s, GetRule(code)) && Enabled(s, Fail)
            && (code !in s.locks ==> Enabled(s, DeleteRule(code, confirmed)))
  {
    InvHolds(run);
    var s := Exec(run).value;
    if tx in s.txs && s.txs[tx].Begun? && s.txs[tx].code in s.locks {
      assert HoldsLock(s.txs[s.locks[s.txs[tx].code]], s.txs[tx].code);
    }
  }

  // ---------------------------------------------------------------- one sequential store explains it

  /** The operation on the table of rules that a step completes, if it does. */
  function TakesEffect(s: State, step: Step): Option<Event>
    requires Enabled(s, step)
  {
    match step
    case CreateRule(rule, _) => Some(Event(0, Op.Create(rule), false))
    case GetRule(code) => Some(Event(0, Fetch(code), false))
    case DeleteRule(code, _) => Some(Event(0, Remove(code), false))
    case SelectForUpdate(tx) =>
      var t := s.txs[tx];
      if t.code in s.rows then None else Some(Event(t.now, Visit(t.code), false))
    case Check(tx) =>
      var t := s.txs[tx];
      if IsExpired(t.snap.rule, t.now) then Some(Event(t.now, Visit(t.code), false)) else None
    case Commit(tx, _) => Some(Event(s.txs[tx].now, Visit(s.txs[tx].code), false))
    case SweepCommit(tx, _) => Some(Event(s.txs[tx].now, Clean(s.txs[tx].held), false))
    case _ => None
  }

  /** A step is invisible, or does to the visible rules what one operation does to a table and
      tells its client what that operation answers, unless the confirmation is lost. */
  ghost predicate Refines(s: State, step: Step)
    requires Enabled(s, step)
  {
    match TakesEffect(s, step)
    case None =>
      && Visible(Next(s, step)) == Visible(s)
      && (Answer(s, step).Some? ==> Answer(s, step).value == Failed(Unavailable))
    case Some(e) =>
      && Visible(Next(s, step)) == Apply(Visible(s), e.now, e.op).0
      && Answer(s, step) == Some(Heard(step, Apply(Visible(s), e.now, e.op).1))
  }

  lemma CreateRefines(s: State, rule: Rule, confirmed: bool)
    requires Inv(s)
    ensures Refines(s, CreateRule(rule, confirmed))
  {
  }

  lemma DeleteRefines(s: State, code: string, confirmed: bool)
    requires Inv(s) && Enabled(s, DeleteRule(code, confirmed))
    ensures Refines(s, DeleteRule(code, confirmed))
  {
    DeletingIsVisible(s, {code});
  }

  lemma StatementsRefine(s: State, step: Step)
    requires Inv(s) && Enabled(s, step) && SingleStatement(step)
    ensures Refines(s, step)
  {
    match step {
      case CreateRule(rule, confirmed) => CreateRefines(s, rule, confirmed);
      case DeleteRule(code, confirmed) => DeleteRefines(s, code, confirmed);
      case _ =>
    }
  }

  lemma CountUseIsVisible(s: State, code: string, now: int)
    requires code in s.rows
    ensures Visible(CountUse(s, code, now)) == Visible(s)[code := Used(s.rows[code].rule, now)]
  {
  }

  /** What a transaction finds at its commit: the row it locked, with uses left. */
  lemma RowAtCommit(s: State, tx: nat)
    requires Inv(s) && tx in s.txs && s.txs[tx].Updated?
    ensures var t := s.txs[tx];
            && t.code in s.rows && s.rows[t.code] == t.snap && !IsExpired(t.snap.rule, t.now)
            && Resolve(Visible(s), t.code, t.now)
               == (Visible(CountUse(s, t.code, t.now)), Ok(Used(t.snap.rule, t.now)))
  {
    assert SnapshotIsCurrent(s.rows, s.txs[tx]);
    CountUseIsVisible(s, s.txs[tx].code, s.txs[tx].now);
  }

  /** At its commit, a transaction still has the committed row, so the count it returns is the
      count it commits. */
  lemma CommitsRefine(s: State, step: Step)
    requires Inv(s) && Enabled(s, step) && step.Commit?
    ensures Refines(s, step)
  {
    RowAtCommit(s, step.tx);
  }

  lemma SelectsAndChecksRefine(s: State, step: Step)
    requires Inv(s) && Enabled(s, step) && (step.SelectForUpdate? || step.Check?)
    ensures Refines(s, step)
  {
    assert SnapshotIsCurrent(s.rows, s.txs[step.tx]);
  }

  lemma HeldRowsAreExpired(s: State, tx: nat)
    requires Inv(s) && tx in s.txs && s.txs[tx].Sweeping?
    ensures ExpiredCodes(Visible(s), s.txs[tx].now) * s.txs[tx].held == s.txs[tx].held
  {
    assert SnapshotIsCurrent(s.rows, s.txs[tx]);
  }

  lemma DeletingIsVisible(s: State, codes: set<string>)
    ensures Visible(s.(rows := s.rows - codes)) == Visible(s) - codes
  {
  }

  lemma SweepsRefine(s: State, step: Step)
    requires Inv(s) && Enabled(s, step) && step.SweepCommit?
    ensures Refines(s, step)
  {
    HeldRowsAreExpired(s, step.tx);
    DeletingIsVisible(s, s.txs[step.tx].held);
  }

  lemma StepRefinesStore(s: State, step: Step)
    requires Inv(s) && Enabled(s, step)
    ensures Refines(s, step)
  {
    if SingleStatement(step) {
      StatementsRefine(s, step);
    } else if step.Commit? {
      CommitsRefine(s, step);
    } else if step.SelectForUpdate? || step.Check? {
      SelectsAndChecksRefine(s, step);
    } else if step.SweepCommit? {
      SweepsRefine(s, step);
    }
  }

  /** A completed operation, the step that answered it, and what its client was told. */
  datatype Entry = Entry(step: Step, event: Event, told: Reply)

  /** A client that gets no answer learns as much as one told "unavailable". */
  function Reported(answer: Option<Reply>): Reply {
    match answer
    case Some(reply) => reply
    case None => Failed(Unavailable)
  }

  /** The completed operations of a run, in the order in which they took effect.  Each takes effect
      at the step that answers it, after the step that began it. */
  function History(run: seq<Step>): seq<Entry>
    requires Exec(run).Some?
  {
    if run == [] then []
    else
      var front, last := run[..|run| - 1], run[|run| - 1];
      var s := Exec(front).value;
      match TakesEffect(s, last)
      case None => History(front)
      case Some(e) => History(front) + [Entry(last, e, Reported(Answer(s, last)))]
  }

  /** All answers of a run other than "unavailable", in order, with the steps that gave them. */
  function Told(run: seq<Step>): seq<(Step, Reply)>
    requires Exec(run).Some?
  {
    if run == [] then []
    else
      var front, last := run[..|run| - 1], run[|run| - 1];
      match Answer(Exec(front).value, last)
      case None => Told(front)
      case Some(reply) => if reply == Failed(Unavailable) then Told(front) else Told(front) + [(last, reply)]
  }

  function ToldIn(h: seq<Entry>): seq<(Step, Reply)> {
    if h == [] then []
    else
      var last := h[|h| - 1];
      if last.told == Failed(Unavailable) then ToldIn(h[..|h| - 1])
      else ToldIn(h[..|h| - 1]) + [(last.step, last.told)]
  }

  /** The table after running the operations one at a time. */
  function Replay(h: seq<Entry>): Table {
    if h == [] then map[]
    else
      var e := h[|h| - 1].event;
      Apply(Replay(h[..|h| - 1]), e.now, e.op).0
  }

  /** Running the operations one at a time gives every client the answer it was told; one that was
      told "unavailable" learns nothing. */
  ghost predicate Truthful(h: seq<Entry>) {
    h != [] ==>
      var front, e := h[..|h| - 1], h[|h| - 1].event;
      && Truthful(front)
      && (h[|h| - 1].told == Failed(Unavailable) || h[|h| - 1].told == Apply(Replay(front), e.now, e.op).1)
  }

  /** Every interleaving looks to its clients like its completed operations run one at a time. */
  lemma {:induction false} EveryRunIsSequential(run: seq<Step>)
    requires Exec(run).Some?
    ensures Replay(History(run)) == Visible(Exec(run).value)
    ensures Truthful(History(run))
    ensures Told(run) == ToldIn(History(run))
  {
    if run != [] {
      var front, last := run[..|run| - 1], run[|run| - 1];
      var s := Exec(front).value;
      EveryRunIsSequential(front);
      InvHolds(front);
      StepRefinesStore(s, last);
      if TakesEffect(s, last).Some? {
        var h := History(run);
        assert h[..|h| - 1] == History(front);
      }
    }
  }

  /** Between its start and its answer, a transaction stays with what it was asked. */
  predicate Pursues(t: Tx, code: string, now: int) {
    match t
    case Answered(_) => true
    case Sweeping(_, _, _) => false
    case _ => t.code == code && t.now == now
  }

  /** A step changes only the transaction it belongs to. */
  lemma OthersKeepTheirPlace(s: State, step: Step, tx: nat)
    requires Enabled(s, step) && tx in s.txs && (SingleStatement(step) || step.tx != tx)
    ensures tx in Next(s, step).txs && Next(s, step).txs[tx] == s.txs[tx]
  {
  }

  lemma PursuitStep(s: State, step: Step, tx: nat, code: string, now: int)
    requires Enabled(s, step) && tx in s.txs && Pursues(s.txs[tx], code, now)
    ensures tx in Next(s, step).txs && Pursues(Next(s, step).txs[tx], code, now)
  {
    if SingleStatement(step) || step.tx != tx {
      OthersKeepTheirPlace(s, step, tx);
    }
  }

  lemma {:induction false} ResolvePursuesItsRequest(s: State, run: seq<Step>, tx: nat, code: string, now: int)
    requires tx in s.txs && Pursues(s.txs[tx], code, now) && ExecFrom(s, run).Some?
    ensures tx in ExecFrom(s, run).value.txs && Pursues(ExecFrom(s, run).value.txs[tx], code, now)
    decreases run
  {
    if run != [] {
      var front, last := run[..|run| - 1], run[|run| - 1];
      ResolvePursuesItsRequest(s, front, tx, code, now);
      PursuitStep(ExecFrom(s, front).value, last, tx, code, now);
    }
  }

  /** The operation a resolve completes is the one its client asked for when it began; it takes
      effect at the step that answers the client. */
  lemma ResolveDoesWhatWasAsked(s: State, tx: nat, code: string, now: int, between: seq<Step>, last: Step)
    requires Enabled(s, Begin(tx, code, now))
    requires ExecFrom(Next(s, Begin(tx, code, now)), between).Some?
    requires Enabled(ExecFrom(Next(s, Begin(tx, code, now)), between).value, last)
    requires !SingleStatement(last) && last.tx == tx
    ensures var s' := ExecFrom(Next(s, Begin(tx, code, now)), between).value;
            var effect := TakesEffect(s', last);
            && (effect.Some? ==> effect.value == Event(now, Visit(code), false) && Answer(s', last).Some?)
            && (effect.None? && Answer(s', last).Some? ==> Answer(s', last).value == Failed(Unavailable))
  {
    var s' := ExecFrom(Next(s, Begin(tx, code, now)), between).value;
    ResolvePursuesItsRequest(Next(s, Begin(tx, code, now)), between, tx, code, now);
    assert Pursues(s'.txs[tx], code, now);
  }

  // ---------------------------------------------------------------- uses are counted exactly

  /** The id of the rule that a step charges one use to. */
  function Charges(s: State, step: Step): Option<nat>
    requires Enabled(s, step)
  {
    if step.Commit? then Some(s.txs[step.tx].snap.id) else None
  }

  /** Uses charged to a rule over a run. */
  function Charged(run: seq<Step>, id: nat): nat
    requires Exec(run).Some?
  {
    if run == [] then 0
    else
      var front, last := run[..|run| - 1], run[|run| - 1];
      Charged(front, id) + (if Charges(Exec(front).value, last) == Some(id) then 1 else 0)
  }

  /** Redirects served for a rule over a run: uses that a client was told about. */
  function Served(run: seq<Step>, id: nat): nat
    requires Exec(run).Some?
  {
    if run == [] then 0
    else
      var front, last := run[..|run| - 1], run[|run| - 1];
      Served(front, id) + (if Confirmed(last) && Charges(Exec(front).value, last) == Some(id) then 1 else 0)
  }

  /** New rules are unused, and a usage limit is not negative. */
  predicate CreatesUnused(run: seq<Step>) {
    forall i :: 0 <= i < |run| && run[i].CreateRule? ==>
      && run[i].rule.usedCount == 0
      && (run[i].rule.maxUsages.Some? ==> run[i].rule.maxUsages.value >= 0)
  }

  /** What one step does to the books: a charged rule is used once more, a new rule is entered. */
  lemma BookStep(s: State, step: Step, id: nat)
    requires Inv(s) && Enabled(s, step) && id in Next(s, step).book
    ensures Charges(s, step) == Some(id) ==>
              && id in s.book && !UsedUp(s.book[id])
              && Next(s, step).book[id] == Used(s.book[id], s.txs[step.tx].now)
    ensures Charges(s, step) != Some(id) && id in s.book ==> Next(s, step).book[id] == s.book[id]
    ensures id !in s.book ==> step.CreateRule? && Next(s, step).book[id] == step.rule
  {
    if step.Commit? {
      assert SnapshotIsCurrent(s.rows, s.txs[step.tx]);
    }
  }

  lemma {:induction false} UnbornIsUncharged(run: seq<Step>, id: nat)
    requires Exec(run).Some? && id !in Exec(run).value.book
    ensures Charged(run, id) == 0
  {
    if run != [] {
      var front, last := run[..|run| - 1], run[|run| - 1];
      var s := Exec(front).value;
      InvHolds(front);
      InvHolds(run);
      UnbornIsUncharged(front, id);
      if last.Commit? {
        assert SnapshotIsCurrent(s.rows, s.txs[last.tx]);
      }
    }
  }

  /** In every run, the used count of every rule ever created is the number of committed uses, and
      never exceeds the rule's limit. */
  lemma {:induction false} UsedCountIsExact(run: seq<Step>, id: nat)
    requires Exec(run).Some? && CreatesUnused(run) && id in Exec(run).value.book
    ensures var rule := Exec(run).value.book[id];
            && rule.usedCount == Charged(run, id)
            && (rule.maxUsages.Some? ==> rule.usedCount <= rule.maxUsages.value)
  {
    if run != [] {
      var front, last := run[..|run| - 1], run[|run| - 1];
      var s := Exec(front).value;
      InvHolds(front);
      BookStep(s, last, id);
      if id in s.book {
        UsedCountIsExact(front, id);
      } else {
        UnbornIsUncharged(front, id);
        assert run[|run| - 1].CreateRule?;
      }
    }
  }

  /** A client that resolves a rule is told a count nobody else was told: the number of uses
      committed so far, its own included. */
  lemma ReturnedCountIsItsTurn(run: seq<Step>)
    requires run != [] && Exec(run).Some? && CreatesUnused(run)
    requires run[|run| - 1].Commit? && run[|run| - 1].confirmed
    ensures var s := Exec(run[..|run| - 1]).value;
            var id := Charges(s, run[|run| - 1]).value;
            var answer := Answer(s, run[|run| - 1]);
            && answer.Some? && answer.value.Given?
            && id in Exec(run).value.book && answer.value.rule == Exec(run).value.book[id]
            && answer.value.rule.usedCount == Charged(run, id) == Charged(run[..|run| - 1], id) + 1
  {
    var front, last := run[..|run| - 1], run[|run| - 1];
    var s := Exec(front).value;
    InvHolds(front);
    assert SnapshotIsCurrent(s.rows, s.txs[last.tx]);
    UsedCountIsExact(run, s.txs[last.tx].snap.id);
  }

  /** Redirects served never exceed uses charged, and equal them when no confirmation is lost. */
  lemma {:induction false} ServedWithinCharged(run: seq<Step>, id: nat)
    requires Exec(run).Some?
    ensures Served(run, id) <= Charged(run, id)
    ensures (forall i :: 0 <= i < |run| ==> Confirmed(run[i])) ==> Served(run, id) == Charged(run, id)
  {
    if run != [] {
      ServedWithinCharged(run[..|run| - 1], id);
    }
  }

  /** Over every concurrent run, with any failures, a rule serves at most its used count, which
      stays within its limit; without lost confirmations it serves exactly its used count. */
  lemma RedirectsWithinLimit(run: seq<Step>, id: nat)
    requires Exec(run).Some? && CreatesUnused(run) && id in Exec(run).value.book
    ensures var rule := Exec(run).value.book[id];
            && Served(run, id) <= rule.usedCount
            && (rule.maxUsages.Some? ==> rule.usedCount <= rule.maxUsages.value)
            && ((forall i :: 0 <= i < |run| ==> Confirmed(run[i])) ==> Served(run, id) == rule.usedCount)
  {
    UsedCountIsExact(run, id);
    ServedWithinCharged(run, id);
  }
}
