/** The Postgres store as a machine of small steps: many resolve transactions, cleanups and
    single statements interleave over one table with row locks.

    A resolve transaction selects its row FOR UPDATE, checks it, updates it and commits.  A
    cleanup locks the rows it found expired one by one and deletes them all when it commits. */
module PostgresStore {
  import opened Lifecycle
  import opened Prelude
  import opened Rules

  /** A committed row; every rule ever created has an `id` of its own. */
  datatype Row = Row(rule: Rule, id: nat)

  /** How far a transaction has come. */
  datatype Tx =
    | Begun(code: string, now: int)
    | Locked(code: string, now: int, snap: Row)
    | Checked(code: string, now: int, snap: Row)
    | Updated(code: string, now: int, snap: Row)
    | Answered(reply: Reply)
    | Sweeping(now: int, due: map<string, nat>, held: set<string>)

  /** `book` remembers the last committed rule of every id, deleted or not; no step reads it. */
  datatype State = State(
    rows: map<string, Row>,
    locks: map<string, nat>,
    txs: map<nat, Tx>,
    nextId: nat,
    book: map<nat, Rule>)

  /** `confirmed` says whether the client hears that its work was done; `Fail` is a single
      statement that fails without effect. */
  datatype Step =
    | CreateRule(rule: Rule, confirmed: bool)
    | GetRule(code: string)
    | DeleteRule(code: string, confirmed: bool)
    | Fail
    | Begin(tx: nat, code: string, now: int)
    | SelectForUpdate(tx: nat)
    | Check(tx: nat)
    | Update(tx: nat)
    | Commit(tx: nat, confirmed: bool)
    | Abort(tx: nat)
    | SweepBegin(tx: nat, now: int)
    | SweepRow(tx: nat, code: string)
    | SweepCommit(tx: nat, confirmed: bool)

  const INITIAL := State(map[], map[], map[], 0, map[])

  /** The rules a client could read. */
  function Visible(s: State): Table {
    map code | code in s.rows :: s.rows[code].rule
  }

  // ---------------------------------------------------------------- the steps

  predicate Enabled(s: State, step: Step) {
    match step
    case CreateRule(_, _) => true
    case GetRule(_) => true
    case DeleteRule(code, _) => code !in s.locks
    case Fail => true
    case Begin(tx, _, _) => tx !in s.txs
    case SelectForUpdate(tx) => tx in s.txs && s.txs[tx].Begun? && s.txs[tx].code !in s.locks
    case Check(tx) => tx in s.txs && s.txs[tx].Locked?
    case Update(tx) => tx in s.txs && s.txs[tx].Checked?
    case Commit(tx, _) => tx in s.txs && s.txs[tx].Updated?
    case Abort(tx) => tx in s.txs && !s.txs[tx].Answered?
    case SweepBegin(tx, _) => tx !in s.txs
    case SweepRow(tx, code) =>
      && tx in s.txs && s.txs[tx].Sweeping? && code in s.txs[tx].due && code !in s.locks
      && code in s.rows && s.rows[code].id == s.txs[tx].due[code]
      && IsExpired(s.rows[code].rule, s.txs[tx].now)
    case SweepCommit(tx, _) =>
      && tx in s.txs && s.txs[tx].Sweeping?
      && forall code :: code in s.txs[tx].due ==>
           code in s.txs[tx].held || code !in s.rows || s.rows[code].id != s.txs[tx].due[code]
  }

  predicate Confirmed(step: Step) {
    match step
    case CreateRule(_, confirmed) => confirmed
    case DeleteRule(_, confirmed) => confirmed
    case Commit(_, confirmed) => confirmed
    case SweepCommit(_, confirmed) => confirmed
    case _ => true
  }

  /** What a client hears of an answer. */
  function Heard(step: Step, reply: Reply): Reply {
    if Confirmed(step) then reply else Failed(Unavailable)
  }

  /** Locks left when a transaction ends. */
  function Unlocked(locks: map<string, nat>, tx: nat): map<string, nat> {
    map code | code in locks && locks[code] != tx :: locks[code]
  }

  function End(s: State, tx: nat, reply: Reply): State {
    s.(locks := Unlocked(s.locks, tx), txs := s.txs[tx := Answered(reply)])
  }

  /** UPDATE ... SET used_count = used_count + 1 on the row as it is when the update commits. */
  function CountUse(s: State, code: string, now: int): State {
    if code !in s.rows then s
    else
      var row := s.rows[code];
      s.(rows := s.rows[code := row.(rule := Used(row.rule, now))],
         book := s.book[row.id := Used(row.rule, now)])
  }

  function Next(s: State, step: Step): State
    requires Enabled(s, step)
  {
    match step
    case CreateRule(rule, _) =>
      if rule.code in s.rows then s
      else s.(rows := s.rows[rule.code := Row(rule, s.nextId)], nextId := s.nextId + 1,
              book := s.book[s.nextId := rule])
    case GetRule(_) => s
    case DeleteRule(code, _) => s.(rows := s.rows - {code})
    case Fail => s
    case Begin(tx, code, now) => s.(txs := s.txs[tx := Begun(code, now)])
    case SelectForUpdate(tx) =>
      var t := s.txs[tx];
      if t.code !in s.rows then End(s, tx, Failed(NotFound))
      else s.(locks := s.locks[t.code := tx], txs := s.txs[tx := Locked(t.code, t.now, s.rows[t.code])])
    case Check(tx) =>
      var t := s.txs[tx];
      (match WhyExpired(t.snap.rule, t.now)
       case Some(reason) => End(s, tx, Failed(Expired(t.snap.rule, reason)))
       case None => s.(txs := s.txs[tx := Checked(t.code, t.now, t.snap)]))
    case Update(tx) =>
      var t := s.txs[tx];
      s.(txs := s.txs[tx := Updated(t.code, t.now, t.snap)])
    case Commit(tx, _) =>
      var t := s.txs[tx];
      End(CountUse(s, t.code, t.now), tx, Heard(step, Given(Used(t.snap.rule, t.now))))
    case Abort(tx) => End(s, tx, Failed(Unavailable))
    case SweepBegin(tx, now) =>
      var due := map code | code in s.rows && IsExpired(s.rows[code].rule, now) :: s.rows[code].id;
      s.(txs := s.txs[tx := Sweeping(now, due, {})])
    case SweepRow(tx, code) =>
      var t := s.txs[tx];
      s.(locks := s.locks[code := tx], txs := s.txs[tx := t.(held := t.held + {code})])
    case SweepCommit(tx, _) =>
      var t := s.txs[tx];
      End(s.(rows := s.rows - t.held), tx, Heard(step, Cleaned(|t.held|)))
  }

  /** Operations that are one statement, outside any explicit transaction. */
  predicate SingleStatement(step: Step) {
    step.CreateRule? || step.GetRule? || step.DeleteRule? || step.Fail?
  }

  /** What a single statement answers. */
  function StatementReply(s: State, step: Step): Reply
    requires SingleStatement(step)
  {
    match step
    case CreateRule(rule, _) => if rule.code in s.rows then Failed(AlreadyExists) else Given(rule)
    case GetRule(code) => if code in s.rows then Given(s.rows[code].rule) else Failed(NotFound)
    case DeleteRule(code, _) => if code in s.rows then Done else Failed(NotFound)
    case Fail => Failed(Unavailable)
  }

  /** What a client is told when a step answers it. */
  function Answer(s: State, step: Step): Option<Reply>
    requires Enabled(s, step)
  {
    if SingleStatement(step) then Some(Heard(step, StatementReply(s, step)))
    else
      var t := Next(s, step).txs[step.tx];
      if t.Answered? then Some(t.reply) else None
  }

  // ---------------------------------------------------------------- runs

  /** The state that a run leads to from `start`, if every step of it was enabled. */
  function ExecFrom(start: State, run: seq<Step>): Option<State>
    decreases run
  {
    if run == [] then Some(start)
    else
      match ExecFrom(start, run[..|run| - 1])
      case None => None
      case Some(s) => if Enabled(s, run[|run| - 1]) then Some(Next(s, run[|run| - 1])) else None
  }

  function Exec(run: seq<Step>): Option<State> {
    ExecFrom(INITIAL, run)
  }

  // ---------------------------------------------------------------- the invariant

  /** The rows a transaction has locked. */
  predicate HoldsLock(t: Tx, code: string) {
    match t
    case Locked(c, _, _) => c == code
    case Checked(c, _, _) => c == code
    case Updated(c, _, _) => c == code
    case Sweeping(_, _, held) => code in held
    case _ => false
  }

  ghost predicate LocksAreHeld(locks: map<string, nat>, txs: map<nat, Tx>) {
    && (forall code :: code in locks ==> locks[code] in txs && HoldsLock(txs[locks[code]], code))
    && (forall tx, code :: tx in txs && HoldsLock(txs[tx], code) ==> code in locks && locks[code] == tx)
  }

  /** A transaction that holds its row sees the committed row; one past its check may use it. */
  ghost predicate SnapshotIsCurrent(rows: map<string, Row>, t: Tx) {
    match t
    case Locked(code, _, snap) => code in rows && rows[code] == snap
    case Checked(code, now, snap) => code in rows && rows[code] == snap && !IsExpired(snap.rule, now)
    case Updated(code, now, snap) => code in rows && rows[code] == snap && !IsExpired(snap.rule, now)
    case Sweeping(now, due, held) =>
      forall code :: code in held ==>
        && code in due && code in rows && rows[code].id == due[code]
        && IsExpired(rows[code].rule, now)
    case _ => true
  }

  ghost predicate SnapshotsAreCurrent(rows: map<string, Row>, txs: map<nat, Tx>) {
    forall tx :: tx in txs ==> SnapshotIsCurrent(rows, txs[tx])
  }

  ghost predicate RowsAreBooked(s: State) {
    && (forall code :: code in s.rows ==>
         s.rows[code].rule.code == code && s.rows[code].id in s.book && s.book[s.rows[code].id] == s.rows[code].rule)
    && (forall c, d :: c in s.rows && d in s.rows && s.rows[c].id == s.rows[d].id ==> c == d)
    && (forall id :: id in s.book <==> 0 <= id < s.nextId)
  }

  ghost predicate Inv(s: State) {
    LocksAreHeld(s.locks, s.txs) && SnapshotsAreCurrent(s.rows, s.txs) && RowsAreBooked(s)
  }
}
