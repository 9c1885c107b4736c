/**
 * Stocks and options held in memory under temporary ids until they are committed
 * (src/store/src/store/stock_store.cpp, option_store.cpp, and the service they commit to).
 */
module InstrumentStores {
  import opened BaseStores

  datatype Stock = Stock(id: int, instrumentId: int, ticker: string)

  datatype OptionContract = OptionContract(id: int, instrumentId: int, underlying: Stock, name: string)

  type StockEntry = Entry<Stock>

  type OptionEntry = Entry<OptionContract>

  /** The tables: the next row id of each, and the instrument id of every stored ticker. */
  datatype Db = Db(nextInstrument: int, nextStock: int, nextOption: int, stocks: map<string, int>)

  // ------------------------------------------------------------------------ the service

  function InsertStock(db: Db, s: Stock): Db {
    db.(nextInstrument := db.nextInstrument + 1, nextStock := db.nextStock + 1,
        stocks := db.stocks[s.ticker := db.nextInstrument])
  }

  /** A stock under the ids of the rows it is inserted in, and the tables then. */
  function InsertedStock(s: Stock, db: Db): (Stock, Db) {
    (s.(id := db.nextStock, instrumentId := db.nextInstrument), InsertStock(db, s))
  }

  function StockInstrument(s: Stock): int {
    s.instrumentId
  }

  /** Insert an option, and its underlying first if the tables do not hold its ticker. */
  function InsertOption(db: Db, o: OptionContract): Db {
    var ready := if o.underlying.ticker in db.stocks then db else InsertStock(db, o.underlying);
    ready.(nextInstrument := ready.nextInstrument + 1, nextOption := ready.nextOption + 1)
  }

  function InsertedOption(o: OptionContract, db: Db): (OptionContract, Db) {
    var db' := InsertOption(db, o);
    (o.(id := db'.nextOption - 1, instrumentId := db'.nextInstrument - 1), db')
  }

  function OptionInstrument(o: OptionContract): int {
    o.instrumentId
  }

  // ------------------------------------------------------------------------ committing stocks

  type StocksDone = CommitDone<Stock, Db>

  /** Commit the entries in order: new ones get their row ids and a line in the map. */
  function CommitStockEntries(es: seq<StockEntry>, db: Db, remap: Remap): Outcome<StocksDone> {
    CommitEntries(es, db, remap, InsertedStock, StockInstrument)
  }

  /** A clean store does nothing and keeps the map of its previous commit. */
  function CommitStocks(es: seq<StockEntry>, db: Db, remap: Remap): Outcome<StocksDone> {
    if Dirty(es) then CommitStockEntries(es, db, map[]) else Done(CommitDone(es, db, remap))
  }

  // ------------------------------------------------------------------------ committing options

  /** Move new options from temporary to committed underlyings; a committed option must not name one. */
  function RemapUnderlyings(es: seq<OptionEntry>, remap: Remap): Outcome<seq<OptionEntry>>
    decreases es
  {
    if es == [] then Done([])
    else
      var u := es[0].value.underlying.instrumentId;
      if es[0].state != New && u in remap then AlreadyCommitted
      else
        var head := if es[0].state == New && u in remap
                    then es[0].(value := es[0].value.(underlying :=
                           es[0].value.underlying.(instrumentId := remap[u])))
                    else es[0];
        match RemapUnderlyings(es[1..], remap)
        case Done(rest) => Done([head] + rest)
        case other => other
  }

  type OptionsDone = CommitDone<OptionContract, Db>

  function CommitOptionEntries(es: seq<OptionEntry>, db: Db, remap: Remap): Outcome<OptionsDone> {
    CommitEntries(es, db, remap, InsertedOption, OptionInstrument)
  }

  function CommitOptions(es: seq<OptionEntry>, db: Db, stockRemap: Remap, remap: Remap): Outcome<OptionsDone> {
    if !Dirty(es) then Done(CommitDone(es, db, remap))
    else
      match RemapUnderlyings(es, stockRemap)
      case Done(remapped) => CommitOptionEntries(remapped, db, map[])
      case AlreadyCommitted => AlreadyCommitted
      case NotYetImplemented => NotYetImplemented
      case CannotCombine => CannotCombine
  }

  // ------------------------------------------------------------------------ what a stock commit does

  ghost predicate DistinctStocks(es: seq<StockEntry>) {
    forall i, j :: 0 <= i < j < |es| ==>
      && es[i].value.id != es[j].value.id
      && es[i].value.instrumentId != es[j].value.instrumentId
      && es[i].value.ticker != es[j].value.ticker
  }

  /** New stocks carry temporary instrument ids. */
  ghost predicate TemporaryNew(es: seq<StockEntry>) {
    forall i :: 0 <= i < |es| && es[i].state == New ==> IsTemporary(es[i].value.instrumentId)
  }

  /** Entry by entry: tickers stay, clean entries stay, new ones get the rows between two table states. */
  ghost predicate StockRows(es: seq<StockEntry>, db: Db, es': seq<StockEntry>, db': Db) {
    && |es'| == |es|
    && (forall i :: 0 <= i < |es| ==> es'[i].state == Clean && es'[i].value.ticker == es[i].value.ticker)
    && (forall i :: 0 <= i < |es| && es[i].state == Clean ==> es'[i] == es[i])
    && (forall i :: 0 <= i < |es| && es[i].state == New ==>
          && db.nextInstrument <= es'[i].value.instrumentId < db'.nextInstrument
          && db.nextStock <= es'[i].value.id < db'.nextStock)
    && (forall i, j :: 0 <= i < j < |es| && es[i].state == New && es[j].state == New ==>
          && es'[i].value.instrumentId < es'[j].value.instrumentId
          && es'[i].value.id < es'[j].value.id)
  }

  ghost function NewIds(es: seq<StockEntry>): set<int> {
    set i | 0 <= i < |es| && es[i].state == New :: es[i].value.instrumentId
  }

  ghost function NewTickers(es: seq<StockEntry>): set<string> {
    set i | 0 <= i < |es| && es[i].state == New :: es[i].value.ticker
  }

  /** The map takes every new entry's temporary id to its row, and keeps its other lines. */
  ghost predicate RemapsNew(es: seq<StockEntry>, es': seq<StockEntry>, remap: Remap, remap': Remap)
    requires |es'| == |es|
  {
    && remap'.Keys == remap.Keys + NewIds(es)
    && (forall i :: 0 <= i < |es| && es[i].state == New ==>
          es[i].value.instrumentId in remap'
          && remap'[es[i].value.instrumentId] == es'[i].value.instrumentId)
    && (forall k :: k in remap && k !in NewIds(es) ==> k in remap' && remap'[k] == remap[k])
  }

  /** The tables hold every new ticker under its row, and keep the others. */
  ghost predicate StoresNew(es: seq<StockEntry>, es': seq<StockEntry>, db: Db, db': Db)
    requires |es'| == |es|
  {
    && db'.nextOption == db.nextOption
    && db.nextInstrument <= db'.nextInstrument && db.nextStock <= db'.nextStock
    && db'.stocks.Keys == db.stocks.Keys + NewTickers(es)
    && (forall i :: 0 <= i < |es| && es[i].state == New ==>
          es[i].value.ticker in db'.stocks && db'.stocks[es[i].value.ticker] == es'[i].value.instrumentId)
    && (forall t :: t in db.stocks && t !in NewTickers(es) ==> t in db'.stocks && db'.stocks[t] == db.stocks[t])
  }

  /** What committing one stock does. */
  function CommittedStock(e: StockEntry, db: Db): StockEntry {
    CommittedEntry(e, db, InsertedStock)
  }

  function StockDbAfter(e: StockEntry, db: Db): Db {
    DbAfter(e, db, InsertedStock)
  }

  function StockRemapAfter(e: StockEntry, db: Db, remap: Remap): Remap {
    RemapAfter(e, db, remap, InsertedStock, StockInstrument)
  }

  lemma RowsCons(e: StockEntry, rest: seq<StockEntry>, db: Db, rest': seq<StockEntry>, db': Db)
    requires e.state == New || e.state == Clean
    requires StockRows(rest, StockDbAfter(e, db), rest', db')
    requires db.nextInstrument <= db'.nextInstrument && db.nextStock <= db'.nextStock
    requires e.state == New ==> db.nextInstrument < db'.nextInstrument && db.nextStock < db'.nextStock
    ensures StockRows([e] + rest, db, [CommittedStock(e, db)] + rest', db')
  {
    var es, es' := [e] + rest, [CommittedStock(e, db)] + rest';
    assert forall i :: 1 <= i < |es| ==> es[i] == rest[i - 1] && es'[i] == rest'[i - 1];
  }

  lemma NewIdsCons(e: StockEntry, rest: seq<StockEntry>)
    ensures NewIds([e] + rest) == NewIds(rest) + (if e.state == New then {e.value.instrumentId} else {})
    ensures NewTickers([e] + rest) == NewTickers(rest) + (if e.state == New then {e.value.ticker} else {})
  {
    var es := [e] + rest;
    assert forall i :: 0 <= i < |rest| ==> es[i + 1] == rest[i];
    assert forall i :: 1 <= i < |es| ==> es[i] == rest[i - 1];
    assert es[0] == e;
  }

  lemma RemapsCons(e: StockEntry, rest: seq<StockEntry>, db: Db, rest': seq<StockEntry>,
                   remap: Remap, remap': Remap)
    requires |rest'| == |rest| && RemapsNew(rest, rest', StockRemapAfter(e, db, remap), remap')
    requires e.state == New ==> e.value.instrumentId !in NewIds(rest) && e.value.instrumentId != db.nextInstrument
    ensures RemapsNew([e] + rest, [CommittedStock(e, db)] + rest', remap, remap')
  {
    var es, es' := [e] + rest, [CommittedStock(e, db)] + rest';
    NewIdsCons(e, rest);
    assert forall i :: 1 <= i < |es| ==> es[i] == rest[i - 1] && es'[i] == rest'[i - 1];
  }

  lemma StoresCons(e: StockEntry, rest: seq<StockEntry>, db: Db, rest': seq<StockEntry>, db': Db)
    requires |rest'| == |rest| && StoresNew(rest, rest', StockDbAfter(e, db), db')
    requires e.state == New ==> e.value.ticker !in NewTickers(rest)
    ensures StoresNew([e] + rest, [CommittedStock(e, db)] + rest', db, db')
  {
    var es, es' := [e] + rest, [CommittedStock(e, db)] + rest';
    NewIdsCons(e, rest);
    assert forall i :: 1 <= i < |es| ==> es[i] == rest[i - 1] && es'[i] == rest'[i - 1];
  }

  lemma StocksTail(es: seq<StockEntry>)
    requires es != [] && NewOrClean(es) && DistinctStocks(es) && TemporaryNew(es)
    ensures NewOrClean(es[1..]) && DistinctStocks(es[1..]) && TemporaryNew(es[1..])
    ensures es[0].value.instrumentId !in NewIds(es[1..]) && es[0].value.ticker !in NewTickers(es[1..])
  {
    assert forall i :: 0 <= i < |es[1..]| ==> es[1..][i] == es[i + 1];
  }

  /** A stock commit of new and clean entries succeeds and does what the three predicates say. */
  ghost predicate StocksCommitted(es: seq<StockEntry>, db: Db, remap: Remap, r: Outcome<StocksDone>) {
    && r.Done?
    && StockRows(es, db, r.value.entries, r.value.db)
    && RemapsNew(es, r.value.entries, remap, r.value.remap)
    && StoresNew(es, r.value.entries, db, r.value.db)
  }

  lemma {:induction false} CommitStockEntriesCommits(es: seq<StockEntry>, db: Db, remap: Remap)
    requires NewOrClean(es) && DistinctStocks(es) && TemporaryNew(es) && db.nextInstrument >= 1
    ensures StocksCommitted(es, db, remap, CommitStockEntries(es, db, remap))
    decreases es
  {
    if es != [] {
      var e, rest := es[0], es[1..];
      StocksTail(es);
      CommitStockEntriesCommits(rest, StockDbAfter(e, db), StockRemapAfter(e, db, remap));
      CommitUnfolds(e, rest, db, remap, InsertedStock, StockInstrument);
      var r := CommitStockEntries(rest, StockDbAfter(e, db), StockRemapAfter(e, db, remap)).value;
      RowsCons(e, rest, db, r.entries, r.db);
      RemapsCons(e, rest, db, r.entries, remap, r.remap);
      StoresCons(e, rest, db, r.entries, r.db);
      assert es == [e] + rest;
    }
  }
}
