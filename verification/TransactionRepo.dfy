/**
 * Storing a transaction with its entries, legs and option row as one unit
 * (src/repo/src/repo/transaction_repo.cpp, src/orm/include/orm/crud.tpp, src/db/src/db/transaction.cpp).
 */
module TransactionRepo {
  import opened Options
  import D = DbTransactions

  // ------------------------------------------------------------------------ the rows

  datatype Row =
    | TransactionRow(id: int, header: string)
    | EntryRow(transaction: int, entry: string)
    | LegRow(transaction: int, leg: string)
    | OptionRow(transaction: int, option: string)

  datatype Data = CashData | StockData(legs: seq<string>) | OptionData(optionLegs: seq<string>, option: string)

  datatype DomainTransaction = DomainTransaction(header: string, entries: seq<string>, data: Data)

  type Tables = seq<Row>

  type Db = D.Db<Tables>

  function EntryRows(id: int, entries: seq<string>): (r: seq<Row>)
    ensures |r| == |entries|
  {
    seq(|entries|, i requires 0 <= i < |entries| => EntryRow(id, entries[i]))
  }

  function LegRows(id: int, legs: seq<string>): (r: seq<Row>)
    ensures |r| == |legs|
  {
    seq(|legs|, i requires 0 <= i < |legs| => LegRow(id, legs[i]))
  }

  function DataRows(id: int, data: Data): seq<Row> {
    match data
    case CashData => []
    case StockData(legs) => LegRows(id, legs)
    case OptionData(legs, option) => LegRows(id, legs) + [OptionRow(id, option)]
  }

  /** Everything a stored transaction consists of. */
  function AllRows(id: int, t: DomainTransaction): seq<Row> {
    [TransactionRow(id, t.header)] + EntryRows(id, t.entries) + DataRows(id, t.data)
  }

  // ------------------------------------------------------------------------ the connection

  class Database {
    var value: Db
    /** How many calls the engine has refused, or not answered properly, although they were in order. */
    ghost var refusals: nat
    /** Whether the engine carries out every ROLLBACK and never ends a transaction by itself. */
    const reliable: bool

    constructor (tables: Tables, reliable: bool)
      ensures value == D.Db(tables, tables, false, false) && this.reliable == reliable
      ensures Legal(value)
    {
      value := D.Db(tables, tables, false, false);
      this.reliable := reliable;
      refusals := 0;
    }

    /** False where the source throws. */
    method Begin() returns (ok: bool)
      modifies this
      ensures value == D.Begin(old(value), ok) && (ok ==> !old(value).open)
      ensures refusals == old(refusals) + if !ok && !old(value).open then 1 else 0
    {
      var accepts := *;
      ok := accepts && !value.open;
      if !ok && !value.open {
        refusals := refusals + 1;
      }
      value := D.Begin(value, ok);
    }

    method Commit() returns (ok: bool)
      modifies this
      ensures value == D.Commit(old(value), ok) && (ok ==> old(value).open)
      ensures refusals == old(refusals) + if !ok && old(value).open then 1 else 0
    {
      var accepts := *;
      ok := accepts && value.open;
      if !ok && value.open {
        refusals := refusals + 1;
      }
      value := D.Commit(value, ok);
    }

    method Rollback() returns (ok: bool)
      modifies this
      ensures value == D.Rollback(old(value), ok) && (ok ==> old(value).open)
      ensures reliable && old(value).open ==> ok
      ensures refusals == old(refusals) + if !ok && old(value).open then 1 else 0
    {
      var accepts := *;
      ok := (accepts || reliable) && value.open;
      if !ok && value.open {
        refusals := refusals + 1;
      }
      value := D.Rollback(value, ok);
    }

    /**
     * Insert a row. A failure may be the missing row id of a row that was inserted, and it may make
     * the engine end an open transaction.
     */
    method Insert(row: Row) returns (inserted: bool)
      modifies this
      ensures Attempted(old(value), row, inserted, reliable, value)
      ensures refusals == old(refusals) + if inserted then 0 else 1
    {
      var accepts := *;
      if accepts {
        value := D.Write(value, value.working + [row]);
        inserted := *;
      } else {
        inserted := false;
        var givesUp := *;
        if givesUp && !reliable && value.open {
          value := D.GiveUp(value);
        }
      }
      refusals := refusals + if inserted then 0 else 1;
    }
  }

  /** What an attempt to insert a row may leave. */
  predicate Attempted(before: Db, row: Row, inserted: bool, reliable: bool, after: Db) {
    || after == D.Write(before, before.working + [row])
    || (!inserted && (after == before || (!reliable && Abandoned(before, after))))
  }

  /** The engine has ended an open transaction by itself. */
  predicate Abandoned(before: Db, after: Db) {
    before.open && after == D.GiveUp(before)
  }

  // ------------------------------------------------------------------------ the transaction object

  class Transaction {
    const db: Database
    var active: bool

    constructor (db: Database, active: bool)
      ensures this.db == db && this.active == active
    {
      this.db, this.active := db, active;
    }

    /** The source's constructor: none if BEGIN throws; inactive inside another transaction. */
    static method Open(db: Database) returns (r: Option<Transaction>)
      modifies db
      ensures r.None? ==> db.value == old(db.value) && !db.value.started
      ensures r.Some? ==> fresh(r.value) && r.value.db == db && r.value.active == !old(db.value).started
      ensures r.Some? ==> db.value == D.Begin(old(db.value), r.value.active)
      ensures r.Some? && r.value.active ==> !old(db.value).open
      ensures db.refusals == old(db.refusals) + if r.None? && !old(db.value).open then 1 else 0
      ensures D.Step(D.State(old(db.value), []), D.Opened(r.Some?))
           == D.State(db.value, if r.Some? then [r.value.active] else [])
    {
      if db.value.started {
        var nested := new Transaction(db, false);
        return Some(nested);
      }
      var begun := db.Begin();
      if !begun {
        return None;
      }
      var outermost := new Transaction(db, true);
      r := Some(outermost);
    }

    /** False where the source throws; without effect on an inactive object. */
    method Commit() returns (ok: bool)
      modifies this, db
      ensures !old(active) ==> ok && !active && db.value == old(db.value)
      ensures old(active) ==>
        db.value == D.Commit(old(db.value), ok) && active == !ok && (ok ==> old(db.value).open)
      ensures db.refusals == old(db.refusals) + if old(active) && !ok && old(db.value).open then 1 else 0
      ensures D.Step(D.State(old(db.value), [old(active)]), D.CommitAsked(0, ok)) == D.State(db.value, [active])
    {
      if !active {
        return true;
      }
      ok := db.Commit();
      if ok {
        active := false;
      }
    }

    method Rollback() returns (ok: bool)
      modifies this, db
      ensures !old(active) ==> ok && !active && db.value == old(db.value)
      ensures old(active) ==>
        && db.value == D.Rollback(old(db.value), ok) && active == !ok && (ok ==> old(db.value).open)
        && (db.reliable && old(db.value).open ==> ok)
      ensures db.refusals >= old(db.refusals)
      ensures D.Step(D.State(old(db.value), [old(active)]), D.RollbackAsked(0, ok)) == D.State(db.value, [active])
    {
      if !active {
        return true;
      }
      ok := db.Rollback();
      if ok {
        active := false;
      }
    }

    /** The destructor: roll back if still active, and swallow the exception if that fails. */
    method Destroy()
      modifies this, db
      ensures !old(active) ==> db.value == old(db.value)
      ensures old(active) ==> db.value == old(db.value) || db.value == D.Rollback(old(db.value), true)
      ensures old(active) && db.reliable && old(db.value).open ==> db.value == D.Rollback(old(db.value), true)
      ensures exists accepts ::
        D.Step(D.State(old(db.value), [old(active)]), D.Destroyed(accepts)) == D.State(db.value, [])
      ensures db.refusals >= old(db.refusals) && (!old(active) ==> db.refusals == old(db.refusals))
    {
      ghost var before, wasActive := db.value, active;
      ghost var accepts := true;
      if active {
        accepts := Rollback();
      }
      assert D.Step(D.State(before, [wasActive]), D.Destroyed(accepts)) == D.State(db.value, []);
    }
  }

  // ------------------------------------------------------------------------ one row

  /**
   * Insert the header row under a nested object of its own, as the row insertion without a given
   * transaction does; the engine picks the row id.
   */
  method InsertHeader(db: Database, header: string) returns (inserted: bool, id: int)
    requires db.value.started
    modifies db
    ensures Attempted(old(db.value), TransactionRow(id, header), inserted, db.reliable, db.value)
    ensures db.refusals == old(db.refusals) + if inserted then 0 else 1
  {
    id := *;
    var attempt := Transaction.Open(db);
    if attempt.None? {
      return false, id;
    }
    var nested := attempt.value;
    inserted := db.Insert(TransactionRow(id, header));
    if inserted {
      inserted := nested.Commit();
    }
    nested.Destroy();
  }

  // ------------------------------------------------------------------------ many rows

  /** Outside the engine's transactions nothing is pending. */
  predicate Legal(d: Db) {
    !d.open ==> d.working == d.committed
  }

  /**
   * Rows are added to what was there: to the working tables inside a transaction of the engine,
   * for good outside.
   */
  predicate Extended(before: Db, after: Db) {
    before.working <= after.working && after == D.Write(before, after.working)
  }

  predicate ExtendedBy(before: Db, rows: seq<Row>, after: Db) {
    after == D.Write(before, before.working + rows)
  }

  /** How inserting rows one after the other may end. */
  predicate Inserted(before: Db, rows: seq<Row>, ok: bool, reliable: bool, after: Db) {
    if ok then ExtendedBy(before, rows, after)
    else Extended(before, after) || (!reliable && Abandoned(before, after))
  }

  lemma OneMore(before: Db, rows: seq<Row>, mid: Db, row: Row, ok: bool, reliable: bool, after: Db)
    requires Legal(before) && ExtendedBy(before, rows, mid) && Attempted(mid, row, ok, reliable, after)
    ensures Inserted(before, rows + [row], ok, reliable, after)
  {
    assert (before.working + rows) + [row] == before.working + (rows + [row]);
  }

  method AddEntries(db: Database, id: int, entries: seq<string>) returns (ok: bool)
    requires Legal(db.value)
    modifies db
    ensures Inserted(old(db.value), EntryRows(id, entries), ok, db.reliable, db.value)
    ensures db.refusals == old(db.refusals) + if ok then 0 else 1
  {
    ghost var before := db.value;
    var i := 0;
    assert before.working + EntryRows(id, entries)[..0] == before.working;
    while i < |entries|
      invariant i <= |entries| && db.refusals == old(db.refusals)
      invariant Legal(before) && ExtendedBy(before, EntryRows(id, entries)[..i], db.value)
    {
      ghost var mid := db.value;
      ok := db.Insert(EntryRow(id, entries[i]));
      OneMore(before, EntryRows(id, entries)[..i], mid, EntryRow(id, entries[i]), ok, db.reliable, db.value);
      if !ok {
        return;
      }
      assert EntryRows(id, entries)[..i + 1] == EntryRows(id, entries)[..i] + [EntryRow(id, entries[i])];
      i := i + 1;
    }
    assert EntryRows(id, entries)[..i] == EntryRows(id, entries);
    ok := true;
  }

  method AddLegs(db: Database, id: int, legs: seq<string>) returns (ok: bool)
    requires Legal(db.value)
    modifies db
    ensures Inserted(old(db.value), LegRows(id, legs), ok, db.reliable, db.value)
    ensures db.refusals == old(db.refusals) + if ok then 0 else 1
  {
    ghost var before := db.value;
    var i := 0;
    assert before.working + LegRows(id, legs)[..0] == before.working;
    while i < |legs|
      invariant i <= |legs| && db.refusals == old(db.refusals)
      invariant Legal(before) && ExtendedBy(before, LegRows(id, legs)[..i], db.value)
    {
      ghost var mid := db.value;
      ok := db.Insert(LegRow(id, legs[i]));
      OneMore(before, LegRows(id, legs)[..i], mid, LegRow(id, legs[i]), ok, db.reliable, db.value);
      if !ok {
        return;
      }
      assert LegRows(id, legs)[..i + 1] == LegRows(id, legs)[..i] + [LegRow(id, legs[i])];
      i := i + 1;
    }
    assert LegRows(id, legs)[..i] == LegRows(id, legs);
    ok := true;
  }

  /** Rows inserted after rows that were all inserted. */
  lemma InsertedBoth(a: Db, xs: seq<Row>, b: Db, ys: seq<Row>, ok: bool, reliable: bool, c: Db)
    requires Legal(a) && ExtendedBy(a, xs, b) && Inserted(b, ys, ok, reliable, c)
    ensures Inserted(a, xs + ys, ok, reliable, c)
  {
    assert (a.working + xs) + ys == a.working + (xs + ys);
  }

  /** The legs, and for an option its own row. */
  method AddData(db: Database, id: int, data: Data) returns (ok: bool)
    requires Legal(db.value)
    modifies db
    ensures Inserted(old(db.value), DataRows(id, data), ok, db.reliable, db.value)
    ensures db.refusals == old(db.refusals) + if ok then 0 else 1
  {
    match data {
      case CashData =>
        assert db.value.working + [] == db.value.working;
        ok := true;
      case StockData(legs) =>
        ok := AddLegs(db, id, legs);
      case OptionData(legs, option) =>
        ghost var before := db.value;
        ok := AddLegs(db, id, legs);
        if ok {
          ghost var mid := db.value;
          ok := db.Insert(OptionRow(id, option));
          OneMore(before, LegRows(id, legs), mid, OptionRow(id, option), ok, db.reliable, db.value);
        }
    }
  }

  /** Header, entries, legs and option row in turn, stopping at the first failure. */
  method AddRows(db: Database, t: DomainTransaction) returns (ok: bool, id: int)
    requires Legal(db.value) && db.value.started
    modifies db
    ensures Inserted(old(db.value), AllRows(id, t), ok, db.reliable, db.value)
    ensures db.refusals == old(db.refusals) + if ok then 0 else 1
  {
    ghost var d0 := db.value;
    assert d0.working + [] == d0.working;
    ok, id := InsertHeader(db, t.header);
    ghost var header := [TransactionRow(id, t.header)];
    assert [] + header == header;
    OneMore(d0, [], d0, TransactionRow(id, t.header), ok, db.reliable, db.value);
    if !ok {
      return;
    }
    ghost var d1 := db.value;
    ok := AddEntries(db, id, t.entries);
    InsertedBoth(d0, header, d1, EntryRows(id, t.entries), ok, db.reliable, db.value);
    if !ok {
      return;
    }
    ghost var d2 := db.value;
    ok := AddData(db, id, t.data);
    InsertedBoth(d0, header + EntryRows(id, t.entries), d2, DataRows(id, t.data), ok, db.reliable, db.value);
  }

  /**
   * Store a transaction and return its id, or none where the source throws. Called with no
   * transaction open it is atomic: all rows are stored for good, or none is; and it leaves none open,
   * and the flag clear, unless the engine refused a ROLLBACK or ended the transaction by itself.
   * It succeeds exactly when the engine refuses none of its calls.
   * Called with the flag set, success adds all rows, and a failure leaves the rows inserted so far,
   * to what the enclosing transaction will store, or for good where the engine has ended that one;
   * unless the failure itself makes the engine end it.
   */
  method AddTransaction(db: Database, t: DomainTransaction) returns (r: Option<int>)
    requires Legal(db.value) && (!db.value.started ==> !db.value.open)
    modifies db
    ensures !old(db.value).started ==>
      db.value.committed == old(db.value).committed + (if r.Some? then AllRows(r.value, t) else [])
    ensures !old(db.value).started && (r.Some? || db.reliable) ==>
      !db.value.started && !db.value.open && db.value.working == db.value.committed
    ensures r.Some? <==> db.refusals == old(db.refusals)
    ensures old(db.value).started ==>
      Inserted(old(db.value), if r.Some? then AllRows(r.value, t) else [], r.Some?, db.reliable, db.value)
  {
    var attempt := Transaction.Open(db);
    if attempt.None? {
      return None;
    }
    var tx := attempt.value;
    var ok, id := AddRows(db, t);
    if ok {
      ok := tx.Commit();
    }
    tx.Destroy();
    r := if ok then Some(id) else None;
  }
}
