/** The SQLite store: one connection, and every time kept as text. */
module SqliteStore {
  import opened Prelude
  import opened Rules
  import TextOrder
  import Timestamps

  /** A row of the `rules` table. */
  datatype Row = Row(
    code: string,
    targetUrl: string,
    createdAt: string,
    expiresAt: Option<string>,
    maxUsages: Option<int>,
    usedCount: int,
    lastUsedAt: Option<string>)

  // ---------------------------------------------------------------- rows and rules

  predicate Storable(rule: Rule) {
    && Timestamps.InRange(rule.createdAt)
    && (rule.expiresAt.Some? ==> Timestamps.InRange(rule.expiresAt.value))
    && (rule.lastUsedAt.Some? ==> Timestamps.InRange(rule.lastUsedAt.value))
  }

  function NullableTime(t: Option<int>): Option<string>
    requires t.Some? ==> Timestamps.InRange(t.value)
  {
    match t
    case None => None
    case Some(v) => Some(Timestamps.FormatTime(v))
  }

  function Save(rule: Rule): Row
    requires Storable(rule)
  {
    Row(rule.code, rule.url, Timestamps.FormatTime(rule.createdAt), NullableTime(rule.expiresAt),
        rule.maxUsages, rule.usedCount, NullableTime(rule.lastUsedAt))
  }

  /** A NULL column is fine; one that does not parse is not. */
  predicate Readable(t: Option<string>) {
    t.Some? ==> Timestamps.ParseTime(t.value).Some?
  }

  function ParsedTime(t: Option<string>): Option<int>
    requires Readable(t)
  {
    match t
    case None => None
    case Some(s) => Some(Timestamps.ParseTime(s).value)
  }

  /** The rule a row stands for. */
  function Load(row: Row): Option<Rule> {
    if Timestamps.ParseTime(row.createdAt).Some? && Readable(row.expiresAt) && Readable(row.lastUsedAt) then
      Some(Rule(row.code, row.targetUrl, Timestamps.ParseTime(row.createdAt).value, ParsedTime(row.expiresAt),
                row.maxUsages, row.usedCount, ParsedTime(row.lastUsedAt)))
    else None
  }

  /** Loading a stored rule gives the rule back, with every optional field kept. */
  lemma LoadUndoesSave(rule: Rule)
    requires Storable(rule)
    ensures Load(Save(rule)) == Some(rule)
  {
    Timestamps.ParseUndoesFormat(rule.createdAt);
    if rule.expiresAt.Some? {
      Timestamps.ParseUndoesFormat(rule.expiresAt.value);
    }
    if rule.lastUsedAt.Some? {
      Timestamps.ParseUndoesFormat(rule.lastUsedAt.value);
    }
  }

  /** Fills a rule from a row, column by column. */
  method ScanRule(row: Row) returns (result: Result<Rule, Error>)
    ensures result == match Load(row) case Some(rule) => Ok(rule) case None => Err(Unavailable)
  {
    var rule := Rule(row.code, row.targetUrl, 0, None, None, row.usedCount, None);
    var createdAt := Timestamps.ParseTime(row.createdAt);
    if createdAt.None? {
      return Err(Unavailable);
    }
    rule := rule.(createdAt := createdAt.value);
    if row.expiresAt.Some? {
      var expiresAt := Timestamps.ParseTime(row.expiresAt.value);
      if expiresAt.None? {
        return Err(Unavailable);
      }
      rule := rule.(expiresAt := Some(expiresAt.value));
    }
    if row.maxUsages.Some? {
      var value := row.maxUsages.value;
      rule := rule.(maxUsages := Some(value));
    }
    if row.lastUsedAt.Some? {
      var lastUsedAt := Timestamps.ParseTime(row.lastUsedAt.value);
      if lastUsedAt.None? {
        return Err(Unavailable);
      }
      rule := rule.(lastUsedAt := Some(lastUsedAt.value));
    }
    return Ok(rule);
  }

  // ---------------------------------------------------------------- the store

  /** The row under a code holds the rule of the table, in the text the store writes for it. */
  ghost predicate StoresAt(rows: map<string, Row>, table: Table, code: string) {
    code in table ==>
      && code in rows
      && table[code].code == code && Storable(table[code]) && rows[code] == Save(table[code])
  }

  ghost predicate Stores(rows: map<string, Row>, table: Table) {
    && rows.Keys == table.Keys
    && forall code {:trigger StoresAt(rows, table, code)} :: StoresAt(rows, table, code)
  }

  lemma StoresWith(rows: map<string, Row>, table: Table, rule: Rule)
    requires Stores(rows, table) && Storable(rule)
    ensures Stores(rows[rule.code := Save(rule)], table[rule.code := rule])
  {
    var rows', table' := rows[rule.code := Save(rule)], table[rule.code := rule];
    forall code ensures StoresAt(rows', table', code) {
      assert StoresAt(rows, table, code);
    }
  }

  /** What the UPDATE statement writes is the text of the rule after one more use. */
  lemma UpdatedRow(rule: Rule, now: int)
    requires Storable(rule) && Timestamps.InRange(now)
    ensures Storable(Used(rule, now))
    ensures Updated(Save(rule), Timestamps.FormatTime(now)) == Save(Used(rule, now))
  {
  }

  function Updated(row: Row, now: string): Row {
    row.(usedCount := row.usedCount + 1, lastUsedAt := Some(now))
  }

  lemma StoresWithout(rows: map<string, Row>, table: Table, codes: set<string>)
    requires Stores(rows, table)
    ensures Stores(rows - codes, table - codes)
  {
    forall code ensures StoresAt(rows - codes, table - codes, code) {
      assert StoresAt(rows, table, code);
    }
  }

  /** Which rows the WHERE clause of the cleanup picks; times are compared as text. */
  predicate PicksRow(row: Row, now: string) {
    || (row.expiresAt.Some? && TextOrder.Compare(row.expiresAt.value, now) <= 0)
    || (row.maxUsages.Some? && row.usedCount >= row.maxUsages.value)
  }

  /** The same choice, seen on the rule. */
  predicate Picks(rule: Rule, now: int)
    requires Storable(rule) && Timestamps.InRange(now)
  {
    || (rule.expiresAt.Some? && Timestamps.TextOrderOf(rule.expiresAt.value, now) <= 0)
    || UsedUp(rule)
  }

  function PickedCodes(table: Table, now: int): set<string>
    requires Timestamps.InRange(now)
  {
    set code | code in table && Storable(table[code]) && Picks(table[code], now)
  }

  lemma PickedRows(rows: map<string, Row>, table: Table, now: int)
    requires Stores(rows, table) && Timestamps.InRange(now)
    ensures (set code | code in rows && PicksRow(rows[code], Timestamps.FormatTime(now))) == PickedCodes(table, now)
  {
    forall code | code in table
      ensures Storable(table[code])
      ensures PicksRow(rows[code], Timestamps.FormatTime(now)) <==> Picks(table[code], now)
    {
      assert StoresAt(rows, table, code);
    }
  }

  class Store {
    var rows: map<string, Row>

    ghost var table: Table      // the rules the rows stand for

    constructor ()
      ensures Valid() && table == map[]
    {
      rows := map[];
      table := map[];
    }

    ghost predicate Valid()
      reads this
    {
      Stores(rows, table)
    }

    /** INSERT, refused when the code is taken. */
    method CreateRule(rule: Rule, fault: Fault) returns (result: Result<Rule, Error>)
      requires Valid() && Storable(rule)
      modifies this
      ensures Valid()
      ensures (table, result) == TryInsert(old(table), rule, fault)
    {
      if !Applies(fault) {
        return Err(Unavailable);
      }
      if rule.code in rows {
        return Confirm(fault, Err(AlreadyExists));
      }
      StoresWith(rows, table, rule);
      rows := rows[rule.code := Save(rule)];
      table := Insert(table, rule).0;
      return Confirm(fault, Ok(rule));
    }

    method GetRule(code: string, fault: Fault) returns (result: Result<Rule, Error>)
      requires Valid()
      ensures result == if fault.NoFault? then Get(table, code) else Err(Unavailable)
    {
      if !fault.NoFault? {
        return Err(Unavailable);
      }
      if code !in rows {
        return Err(NotFound);
      }
      assert StoresAt(rows, table, code);
      LoadUndoesSave(table[code]);
      result := ScanRule(rows[code]);
    }

    method DeleteRule(code: string, fault: Fault) returns (result: Result<(), Error>)
      requires Valid()
      modifies this
      ensures Valid()
      ensures (table, result) == TryDelete(old(table), code, fault)
    {
      if !Applies(fault) {
        return Err(Unavailable);
      }
      var affected := if code in rows then 1 else 0;
      assert code !in table ==> table - {code} == table;
      StoresWithout(rows, table, {code});
      rows := rows - {code};
      table := table - {code};
      if affected == 0 {
        return Confirm(fault, Err(NotFound));
      }
      return Confirm(fault, Ok(()));
    }

    /** The cleanup: one DELETE statement over all rows. */
    method DeleteExpired(now: int, fault: Fault) returns (result: Result<nat, Error>)
      requires Valid() && Timestamps.InRange(now)
      modifies this
      ensures Valid()
      ensures table == if Applies(fault) then old(table) - PickedCodes(old(table), now) else old(table)
      ensures result == Confirm(fault, Ok(|PickedCodes(old(table), now)|))
    {
      if !Applies(fault) {
        return Err(Unavailable);
      }
      var text := Timestamps.FormatTime(now);
      var doomed := set code | code in rows && PicksRow(rows[code], text);
      ghost var picked := PickedCodes(table, now);
      PickedRows(rows, table, now);
      StoresWithout(rows, table, picked);
      rows := rows - doomed;
      table := table - picked;
      return Confirm(fault, Ok(|doomed|));
    }

    /** The UPDATE of one row, once it is committed. */
    method CommitUse(code: string, now: int)
      requires Valid() && code in table && Timestamps.InRange(now)
      modifies this
      ensures Valid() && table == old(table)[code := Used(old(table)[code], now)]
    {
      assert StoresAt(rows, table, code);
      UpdatedRow(table[code], now);
      StoresWith(rows, table, Used(table[code], now));
      rows := rows[code := Updated(rows[code], Timestamps.FormatTime(now))];
      table := table[code := Used(table[code], now)];
    }

    /** Reads, checks and counts one use of a rule, in one transaction. */
    method ResolveRule(code: string, now: int, fault: Fault) returns (result: Result<Rule, Error>)
      requires Valid() && Timestamps.InRange(now)
      modifies this
      ensures Valid()
      ensures (table, result) == TryResolve(old(table), code, now, fault)
    {
      if fault.BeginFails? || fault.StatementFails? {
        return Err(Unavailable);
      }
      if code !in rows {
        return Err(NotFound);
      }
      assert StoresAt(rows, table, code);
      LoadUndoesSave(table[code]);
      var row := rows[code];
      var scanned := ScanRule(row);
      var rule := scanned.value;

      var reason := WhyExpired(rule, now);
      if reason.Some? {
        return Err(Expired(rule, reason.value));
      }
      if fault.UpdateFails? {
        return Err(Unavailable);
      }
      if fault == CommitFails(false) {
        return Err(Unavailable);
      }
      CommitUse(code, now);
      if fault.CommitFails? {
        return Err(Unavailable);
      }
      rule := rule.(usedCount := rule.usedCount + 1);
      rule := rule.(lastUsedAt := Some(now));
      return Ok(rule);
    }
  }

  // ---------------------------------------------------------------- what the cleanup gets wrong

  /** Whether the fraction of one of two times in the same second continues that of the other. */
  predicate TextMisleads(rule: Rule, now: int)
    requires Storable(rule) && Timestamps.InRange(now)
  {
    rule.expiresAt.Some? && Timestamps.ProperPrefixCase(rule.expiresAt.value, now)
  }

  /** The cleanup picks the rules that have expired, except that a rule with uses left is judged
      wrongly exactly when the text of its expiry misleads. */
  lemma CleanupIsExactIff(rule: Rule, now: int)
    requires Storable(rule) && Timestamps.InRange(now)
    ensures (Picks(rule, now) <==> IsExpired(rule, now)) <==> UsedUp(rule) || !TextMisleads(rule, now)
  {
    if rule.expiresAt.Some? {
      Timestamps.TextOrderIsTimeOrderIff(rule.expiresAt.value, now);
    }
  }

  /** Over a whole table, the cleanup deletes exactly the expired rules when and only when the text
      of no expiry misleads about a rule with uses left. */
  lemma CleanupOfTableIsExactIff(table: Table, now: int)
    requires Timestamps.InRange(now) && forall code :: code in table ==> Storable(table[code])
    ensures PickedCodes(table, now) == ExpiredCodes(table, now)
            <==> forall code :: code in table ==> UsedUp(table[code]) || !TextMisleads(table[code], now)
  {
    forall code | code in table
      ensures (code in PickedCodes(table, now) <==> code in ExpiredCodes(table, now))
              <==> UsedUp(table[code]) || !TextMisleads(table[code], now)
    {
      CleanupIsExactIff(table[code], now);
    }
  }

  /** The error is under one second: every used-up rule goes, every rule whose expiry second is
      over goes, and every rule with uses left whose expiry second is still to come stays. */
  lemma CleanupIsRightToTheSecond(rule: Rule, now: int)
    requires Storable(rule) && Timestamps.InRange(now)
    ensures UsedUp(rule) ==> Picks(rule, now)
    ensures rule.expiresAt.Some? && rule.expiresAt.value / Timestamps.SECOND < now / Timestamps.SECOND
            ==> Picks(rule, now)
    ensures !UsedUp(rule)
            && (rule.expiresAt.Some? ==> rule.expiresAt.value / Timestamps.SECOND > now / Timestamps.SECOND)
            ==> !Picks(rule, now)
    ensures Picks(rule, now) && !IsExpired(rule, now)
            ==> rule.expiresAt.Some? && now < rule.expiresAt.value < now + Timestamps.SECOND
    ensures IsExpired(rule, now) && !Picks(rule, now)
            ==> rule.expiresAt.Some? && now - Timestamps.SECOND < rule.expiresAt.value <= now
  {
    if rule.expiresAt.Some? {
      Timestamps.TextOrderIsTimeOrderIff(rule.expiresAt.value, now);
    }
  }

  /** Which way the cleanup errs: it deletes a live rule exactly when the fraction of its expiry
      properly continues the fraction of the current time, and keeps an expired one exactly when
      the current time's fraction properly continues that of the expiry. */
  lemma CleanupErrsIff(rule: Rule, now: int)
    requires Storable(rule) && Timestamps.InRange(now)
    ensures Picks(rule, now) && !IsExpired(rule, now)
            <==> && !UsedUp(rule) && rule.expiresAt.Some?
                 && Timestamps.SameSecond(now, rule.expiresAt.value)
                 && Timestamps.FractionDigits(now) < Timestamps.FractionDigits(rule.expiresAt.value)
    ensures IsExpired(rule, now) && !Picks(rule, now)
            <==> && !UsedUp(rule) && rule.expiresAt.Some?
                 && Timestamps.SameSecond(now, rule.expiresAt.value)
                 && Timestamps.FractionDigits(rule.expiresAt.value) < Timestamps.FractionDigits(now)
  {
    if rule.expiresAt.Some? {
      Timestamps.TextOrderErrsIff(rule.expiresAt.value, now);
    }
  }

  lemma NoFractionIff(t: nat)
    ensures Timestamps.FractionDigits(t) == "" <==> t % Timestamps.SECOND == 0
  {
    TextOrder.TrimmedZero(Timestamps.NANO_DIGITS);
    Timestamps.Billion();
    if Timestamps.FractionDigits(t) == "" {
      TextOrder.EqualFractionsAreEqual(t % Timestamps.SECOND, 0, Timestamps.NANO_DIGITS);
    }
  }

  /** A rule that expires within a second that has just begun is deleted although it would still
      resolve. */
  lemma CleanupDeletesALiveRule(rule: Rule, now: int)
    requires Storable(rule) && Timestamps.InRange(now) && now % Timestamps.SECOND == 0
    requires rule.expiresAt.Some? && now < rule.expiresAt.value < now + Timestamps.SECOND && !UsedUp(rule)
    ensures Picks(rule, now) && !IsExpired(rule, now)
  {
    NoFractionIff(now);
    NoFractionIff(rule.expiresAt.value);
    CleanupErrsIff(rule, now);
  }

  /** A rule that expired at the start of a second is kept for the rest of that second. */
  lemma CleanupKeepsAnExpiredRule(rule: Rule, now: int)
    requires Storable(rule) && Timestamps.InRange(now) && !UsedUp(rule)
    requires rule.expiresAt.Some? && rule.expiresAt.value % Timestamps.SECOND == 0
    requires rule.expiresAt.value < now < rule.expiresAt.value + Timestamps.SECOND
    ensures IsExpired(rule, now) && !Picks(rule, now)
  {
    NoFractionIff(now);
    NoFractionIff(rule.expiresAt.value);
    CleanupErrsIff(rule, now);
  }
}
