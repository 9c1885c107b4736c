/** Runs of adding and committing stocks and options, and what holds along them. */
module InstrumentProtocol {
  import opened BaseStores
  import opened InstrumentStores

  // ------------------------------------------------------------------------ what an option commit does

  function RemappedOption(e: OptionEntry, remap: Remap): OptionEntry {
    var u := e.value.underlying.instrumentId;
    if e.state == New && u in remap
    then e.(value := e.value.(underlying := e.value.underlying.(instrumentId := remap[u])))
    else e
  }

  /** No committed option names an id of the map. */
  ghost predicate CommittedApart(es: seq<OptionEntry>, remap: Remap) {
    forall i :: 0 <= i < |es| && es[i].state != New ==> es[i].value.underlying.instrumentId !in remap
  }

  ghost predicate OptionsRemapped(es: seq<OptionEntry>, remap: Remap, r: Outcome<seq<OptionEntry>>) {
    && r.Done? && |r.value| == |es|
    && forall i :: 0 <= i < |es| ==> r.value[i] == RemappedOption(es[i], remap)
  }

  /** Remapping succeeds exactly when no committed option names an id of the map. */
  lemma {:induction false} RemapSucceedsExactlyWhen(es: seq<OptionEntry>, remap: Remap)
    ensures CommittedApart(es, remap) <==> RemapUnderlyings(es, remap).Done?
    ensures CommittedApart(es, remap) ==> OptionsRemapped(es, remap, RemapUnderlyings(es, remap))
    decreases es
  {
    if es != [] {
      var rest := es[1..];
      RemapSucceedsExactlyWhen(rest, remap);
      assert forall i :: 0 <= i < |rest| ==> rest[i] == es[i + 1];
      assert CommittedApart(es, remap)
        <==> CommittedApart(rest, remap) && (es[0].state != New ==> es[0].value.underlying.instrumentId !in remap) by {
        if CommittedApart(rest, remap) {
          assert forall i :: 1 <= i < |es| ==> es[i] == rest[i - 1];
        }
      }
    }
  }

  ghost function NewOptionIds(es: seq<OptionEntry>): set<int> {
    set i | 0 <= i < |es| && es[i].state == New :: es[i].value.instrumentId
  }

  /** Every new option's underlying ticker is already in the tables. */
  ghost predicate UnderlyingsStored(es: seq<OptionEntry>, db: Db) {
    forall i :: 0 <= i < |es| && es[i].state == New ==> es[i].value.underlying.ticker in db.stocks
  }

  /** Entry by entry: clean options stay, new ones get row ids; what they are about stays. */
  ghost predicate OptionRows(es: seq<OptionEntry>, db: Db, es': seq<OptionEntry>, db': Db) {
    && |es'| == |es|
    && (forall i :: 0 <= i < |es| ==>
          && es'[i].state == Clean
          && es'[i].value.underlying == es[i].value.underlying && es'[i].value.name == es[i].value.name)
    && (forall i :: 0 <= i < |es| && es[i].state == Clean ==> es'[i] == es[i])
    && (forall i :: 0 <= i < |es| && es[i].state == New ==>
          && db.nextInstrument <= es'[i].value.instrumentId < db'.nextInstrument
          && db.nextOption <= es'[i].value.id < db'.nextOption)
    && db'.stocks == db.stocks && db'.nextStock == db.nextStock
    && db.nextInstrument <= db'.nextInstrument && db.nextOption <= db'.nextOption
  }

  /** A new option is the only entry with its ids. */
  ghost predicate DistinctNewOptions(es: seq<OptionEntry>) {
    forall i, j :: 0 <= i < j < |es| && (es[i].state == New || es[j].state == New) ==>
      && es[i].value.id != es[j].value.id
      && es[i].value.instrumentId != es[j].value.instrumentId
  }

  /** The map takes every new option's temporary id to its row, and keeps its other lines. */
  ghost predicate RemapsNewOptions(es: seq<OptionEntry>, es': seq<OptionEntry>, remap: Remap, remap': Remap)
    requires |es'| == |es|
  {
    && remap'.Keys == remap.Keys + NewOptionIds(es)
    && (forall i :: 0 <= i < |es| && es[i].state == New ==>
          es[i].value.instrumentId in remap'
          && remap'[es[i].value.instrumentId] == es'[i].value.instrumentId)
    && (forall k :: k in remap && k !in NewOptionIds(es) ==> k in remap' && remap'[k] == remap[k])
  }

  lemma RemapsOptionsCons(e: OptionEntry, rest: seq<OptionEntry>, db: Db, rest': seq<OptionEntry>,
                          remap: Remap, remap': Remap)
    requires |rest'| == |rest| && RemapsNewOptions(rest, rest', OptionRemapAfter(e, db, remap), remap')
    requires e.state == New ==> e.value.instrumentId !in NewOptionIds(rest)
    requires e.state == New ==> e.value.instrumentId != CommittedOption(e, db).value.instrumentId
    ensures RemapsNewOptions([e] + rest, [CommittedOption(e, db)] + rest', remap, remap')
  {
    var es, es' := [e] + rest, [CommittedOption(e, db)] + rest';
    NewOptionIdsCons(e, rest);
    assert forall i :: 1 <= i < |es| ==> es[i] == rest[i - 1] && es'[i] == rest'[i - 1];
  }

  lemma OptionsTail(es: seq<OptionEntry>, db: Db)
    requires es != [] && ReadyOptions(es, db)
    ensures ReadyOptions(es[1..], OptionDbAfter(es[0], db))
    ensures es[0].state == New ==> es[0].value.instrumentId !in NewOptionIds(es[1..])
  {
    assert forall i :: 0 <= i < |es[1..]| ==> es[1..][i] == es[i + 1];
  }

  /** Options a commit can insert: new or clean, on stored stocks, under temporary ids of their own. */
  ghost predicate ReadyOptions(es: seq<OptionEntry>, db: Db) {
    && NewOrClean(es) && UnderlyingsStored(es, db) && db.nextInstrument >= 1
    && DistinctNewOptions(es)
    && forall i :: 0 <= i < |es| && es[i].state == New ==> IsTemporary(es[i].value.instrumentId)
  }

  ghost predicate OptionsCommitted(es: seq<OptionEntry>, db: Db, remap: Remap, r: Outcome<OptionsDone>) {
    && r.Done?
    && OptionRows(es, db, r.value.entries, r.value.db)
    && RemapsNewOptions(es, r.value.entries, remap, r.value.remap)
  }

  /** What committing one option does. */
  function CommittedOption(e: OptionEntry, db: Db): OptionEntry {
    CommittedEntry(e, db, InsertedOption)
  }

  function OptionDbAfter(e: OptionEntry, db: Db): Db {
    DbAfter(e, db, InsertedOption)
  }

  function OptionRemapAfter(e: OptionEntry, db: Db, remap: Remap): Remap {
    RemapAfter(e, db, remap, InsertedOption, OptionInstrument)
  }

  lemma OptionRowsCons(e: OptionEntry, rest: seq<OptionEntry>, db: Db, rest': seq<OptionEntry>, db': Db)
    requires e.state == New || e.state == Clean
    requires e.state == New ==> e.value.underlying.ticker in db.stocks
    requires OptionRows(rest, OptionDbAfter(e, db), rest', db')
    ensures OptionRows([e] + rest, db, [CommittedOption(e, db)] + rest', db')
  {
    var es, es' := [e] + rest, [CommittedOption(e, db)] + rest';
    assert forall i :: 1 <= i < |es| ==> es[i] == rest[i - 1] && es'[i] == rest'[i - 1];
  }

  lemma NewOptionIdsCons(e: OptionEntry, rest: seq<OptionEntry>)
    ensures NewOptionIds([e] + rest) == NewOptionIds(rest) + (if e.state == New then {e.value.instrumentId} else {})
  {
    var es := [e] + rest;
    assert forall i :: 1 <= i < |es| ==> es[i] == rest[i - 1];
    assert forall i :: 0 <= i < |rest| ==> es[i + 1] == rest[i];
    assert es[0] == e;
  }

  lemma {:induction false} CommitOptionEntriesCommits(es: seq<OptionEntry>, db: Db, remap: Remap)
    requires ReadyOptions(es, db)
    ensures OptionsCommitted(es, db, remap, CommitOptionEntries(es, db, remap))
    decreases es
  {
    if es != [] {
      var e, rest := es[0], es[1..];
      assert es == [e] + rest;
      OptionsTail(es, db);
      CommitOptionEntriesCommits(rest, OptionDbAfter(e, db), OptionRemapAfter(e, db, remap));
      CommitUnfolds(e, rest, db, remap, InsertedOption, OptionInstrument);
      var r := CommitOptionEntries(rest, OptionDbAfter(e, db), OptionRemapAfter(e, db, remap)).value;
      OptionRowsCons(e, rest, db, r.entries, r.db);
      RemapsOptionsCons(e, rest, db, r.entries, remap, r.remap);
    }
  }

  // ------------------------------------------------------------------------ the world

  /** Both stores, the id sequence they share, their own sequences, and the tables. */
  datatype World = World(
    stocks: seq<StockEntry>, stockMap: Remap, options: seq<OptionEntry>, optionMap: Remap,
    instrumentSeq: int, stockSeq: int, optionSeq: int, db: Db)

  predicate TickerKnown(es: seq<StockEntry>, ticker: string) {
    exists i :: 0 <= i < |es| && es[i].value.ticker == ticker
  }

  predicate NameKnown(es: seq<OptionEntry>, name: string) {
    exists i :: 0 <= i < |es| && es[i].state != Deleted && es[i].value.name == name
  }

  /** Add a stock under temporary ids, unless its ticker is there already. */
  function AddStock(w: World, ticker: string): World {
    if TickerKnown(w.stocks, ticker) then w
    else w.(stocks := w.stocks + [Entry(Stock(w.stockSeq, w.instrumentSeq, ticker), New)],
            instrumentSeq := w.instrumentSeq - 1, stockSeq := w.stockSeq - 1)
  }

  /**
   * Add an option on a stock of the store, unless the store or (as `inTables` says) the tables
   * hold its name.
   */
  function AddOption(w: World, stock: nat, name: string, inTables: bool): World {
    if stock >= |w.stocks| || NameKnown(w.options, name) || inTables then w
    else w.(options := w.options
              + [Entry(OptionContract(w.optionSeq, w.instrumentSeq, w.stocks[stock].value, name), New)],
            instrumentSeq := w.instrumentSeq - 1, optionSeq := w.optionSeq - 1)
  }

  /** Commit the stocks, then the options with the stocks' map, and combine the two maps. */
  function Commit(w: World): Outcome<World> {
    match CommitStocks(w.stocks, w.db, w.stockMap)
    case Done(s) =>
      (match CommitOptions(w.options, s.db, s.remap, w.optionMap)
       case Done(o) =>
         if s.remap.Keys * o.remap.Keys != {} then CannotCombine
         else Done(w.(stocks := s.entries, stockMap := s.remap,
                      options := o.entries, optionMap := o.remap, db := o.db))
       case AlreadyCommitted => AlreadyCommitted
       case NotYetImplemented => NotYetImplemented
       case CannotCombine => CannotCombine)
    case AlreadyCommitted => AlreadyCommitted
    case NotYetImplemented => NotYetImplemented
    case CannotCombine => CannotCombine
  }

  // ------------------------------------------------------------------------ the invariant

  /** An id handed out by the shared sequence. */
  predicate HandedOut(w: World, id: int) {
    w.instrumentSeq < id <= -2
  }

  /** A stock entry: temporary and not yet stored, or stored under its row ids. */
  predicate SoundStock(w: World, e: StockEntry) {
    var s := e.value;
    match e.state
    case New => HandedOut(w, s.instrumentId) && w.stockSeq < s.id <= -2 && s.ticker !in w.db.stocks
    case Clean =>
      && 1 <= s.instrumentId < w.db.nextInstrument && 1 <= s.id < w.db.nextStock
      && s.ticker in w.db.stocks && w.db.stocks[s.ticker] == s.instrumentId
    case _ => false
  }

  /** The stock an option is on, by id and ticker. */
  ghost predicate On(es: seq<StockEntry>, u: Stock) {
    exists i :: 0 <= i < |es| && es[i].value.instrumentId == u.instrumentId && es[i].value.ticker == u.ticker
  }

  /** An option entry: on a stock of the store, and temporary or stored. */
  ghost predicate SoundOption(w: World, e: OptionEntry) {
    var o := e.value;
    && On(w.stocks, o.underlying)
    && match e.state
       case New => HandedOut(w, o.instrumentId) && w.optionSeq < o.id <= -2
       case Clean => o.id >= 1 && o.instrumentId >= 1 && o.underlying.instrumentId >= 1
       case _ => false
  }

  ghost predicate StocksSound(w: World) {
    && (forall i :: 0 <= i < |w.stocks| ==> SoundStock(w, w.stocks[i]))
    && DistinctStocks(w.stocks)
    && (forall t :: t in w.db.stocks ==> TickerKnown(w.stocks, t))
  }

  ghost predicate OptionsSound(w: World) {
    forall i :: 0 <= i < |w.options| ==> SoundOption(w, w.options[i])
  }

  /** The maps, possibly of earlier commits: they list ids handed out to stocks and options long gone. */
  ghost predicate MapsSound(w: World) {
    && (forall k :: k in w.stockMap ==> HandedOut(w, k))
    && (forall k :: k in w.optionMap ==> HandedOut(w, k))
    && NewIds(w.stocks) !! w.stockMap.Keys
    && w.stockMap.Keys !! w.optionMap.Keys
    && NewIds(w.stocks) !! w.optionMap.Keys
    && NewOptionIds(w.options) !! w.stockMap.Keys
    && NewIds(w.stocks) !! NewOptionIds(w.options)
  }

  ghost predicate Sound(w: World) {
    && w.instrumentSeq <= -2 && w.stockSeq <= -2 && w.optionSeq <= -2
    && w.db.nextInstrument >= 1 && w.db.nextStock >= 1 && w.db.nextOption >= 1
    && StocksSound(w) && OptionsSound(w) && MapsSound(w) && DistinctNewOptions(w.options)
  }

  /**
   * Every entry is committed under row ids of its own, and every option names the committed
   * instrument id of a stored stock. The copy of the stock inside an option also has a stock id, of
   * which this says nothing: see module UnderlyingStockIds.
   */
  ghost predicate Settled(w: World) {
    && (forall i :: 0 <= i < |w.stocks| ==> SettledStock(w.stocks[i]))
    && (forall i :: 0 <= i < |w.options| ==> SettledOption(w.options[i], w.db))
  }

  predicate SettledStock(e: StockEntry) {
    e.state == Clean && e.value.id >= 1 && e.value.instrumentId >= 1
  }

  predicate SettledOption(e: OptionEntry, db: Db) {
    var o := e.value;
    && e.state == Clean
    && o.id >= 1 && o.instrumentId >= 1 && o.underlying.instrumentId >= 1
    && o.underlying.ticker in db.stocks
    && db.stocks[o.underlying.ticker] == o.underlying.instrumentId
  }

  lemma OnAppend(es: seq<StockEntry>, e: StockEntry, u: Stock)
    requires On(es, u)
    ensures On(es + [e], u)
  {
    var i :| 0 <= i < |es| && es[i].value.instrumentId == u.instrumentId && es[i].value.ticker == u.ticker;
    assert (es + [e])[i] == es[i];
  }

  lemma NewIdsAppend(es: seq<StockEntry>, e: StockEntry)
    requires e.state == New
    ensures NewIds(es + [e]) == NewIds(es) + {e.value.instrumentId}
  {
    var es' := es + [e];
    assert es'[|es|] == e && forall i :: 0 <= i < |es| ==> es'[i] == es[i];
  }

  lemma NewOptionIdsAppend(es: seq<OptionEntry>, e: OptionEntry)
    requires e.state == New
    ensures NewOptionIds(es + [e]) == NewOptionIds(es) + {e.value.instrumentId}
  {
    var es' := es + [e];
    assert es'[|es|] == e && forall i :: 0 <= i < |es| ==> es'[i] == es[i];
  }

  lemma TickerKnownAppend(es: seq<StockEntry>, e: StockEntry, t: string)
    requires TickerKnown(es, t)
    ensures TickerKnown(es + [e], t)
  {
    var i :| 0 <= i < |es| && es[i].value.ticker == t;
    assert (es + [e])[i] == es[i];
  }

  /** A stock with an id never handed out before joins the store. */
  lemma AddedStockSound(w: World, w': World, e: StockEntry)
    requires Sound(w) && e == Entry(Stock(w.stockSeq, w.instrumentSeq, e.value.ticker), New)
    requires !TickerKnown(w.stocks, e.value.ticker)
    requires w' == w.(stocks := w.stocks + [e], instrumentSeq := w.instrumentSeq - 1, stockSeq := w.stockSeq - 1)
    ensures StocksSound(w')
  {
    forall i | 0 <= i < |w'.stocks|
      ensures SoundStock(w', w'.stocks[i])
    {
      assert i < |w.stocks| ==> SoundStock(w, w.stocks[i]);
    }
    forall t | t in w'.db.stocks
      ensures TickerKnown(w'.stocks, t)
    {
      TickerKnownAppend(w.stocks, e, t);
    }
    forall i, j | 0 <= i < j < |w'.stocks|
      ensures w'.stocks[i].value.id != w'.stocks[j].value.id
           && w'.stocks[i].value.instrumentId != w'.stocks[j].value.instrumentId
           && w'.stocks[i].value.ticker != w'.stocks[j].value.ticker
    {
      assert SoundStock(w, w.stocks[i]);
    }
  }

  lemma AddStockKeepsSound(w: World, ticker: string)
    requires Sound(w)
    ensures Sound(AddStock(w, ticker))
  {
    var w' := AddStock(w, ticker);
    if w' != w {
      var e := w'.stocks[|w.stocks|];
      AddedStockSound(w, w', e);
      forall i | 0 <= i < |w'.options|
        ensures SoundOption(w', w'.options[i])
      {
        assert SoundOption(w, w.options[i]);
        OnAppend(w.stocks, e, w.options[i].value.underlying);
      }
      NewIdsAppend(w.stocks, e);
      FreshIsApart(w);
    }
  }

  /** The next id of the shared sequence is in no map and on no entry. */
  lemma FreshIsApart(w: World)
    requires Sound(w)
    ensures w.instrumentSeq !in NewIds(w.stocks) && w.instrumentSeq !in NewOptionIds(w.options)
    ensures w.instrumentSeq !in w.stockMap && w.instrumentSeq !in w.optionMap
  {
    forall i | 0 <= i < |w.stocks|
      ensures w.stocks[i].value.instrumentId != w.instrumentSeq
    {
      assert SoundStock(w, w.stocks[i]);
    }
    forall i | 0 <= i < |w.options|
      ensures w.options[i].value.instrumentId != w.instrumentSeq
    {
      assert SoundOption(w, w.options[i]);
    }
  }

  lemma AddOptionKeepsSound(w: World, stock: nat, name: string, inTables: bool)
    requires Sound(w)
    ensures Sound(AddOption(w, stock, name, inTables))
  {
    var w' := AddOption(w, stock, name, inTables);
    if w' != w {
      var e := w'.options[|w.options|];
      forall i | 0 <= i < |w'.options|
        ensures SoundOption(w', w'.options[i])
      {
        assert i < |w.options| ==> SoundOption(w, w.options[i]);
      }
      forall i | 0 <= i < |w'.stocks|
        ensures SoundStock(w', w'.stocks[i])
      {
        assert SoundStock(w, w.stocks[i]);
      }
      forall i | 0 <= i < |w.options|
        ensures w.options[i].value.id != e.value.id && w.options[i].value.instrumentId != e.value.instrumentId
      {
        assert SoundOption(w, w.options[i]);
      }
      assert DistinctNewOptions(w'.options);
      NewOptionIdsAppend(w.options, e);
      FreshIsApart(w);
    }
  }

  // ------------------------------------------------------------------------ a commit settles everything

  /** The map a stock commit starts from: an empty one, or, in a clean store, the one it already had. */
  function StartMap(w: World): Remap {
    if Dirty(w.stocks) then map[] else w.stockMap
  }

  ghost predicate StocksDoneFor(w: World, s: StocksDone) {
    && StockRows(w.stocks, w.db, s.entries, s.db)
    && RemapsNew(w.stocks, s.entries, StartMap(w), s.remap)
    && StoresNew(w.stocks, s.entries, w.db, s.db)
  }

  /** A clean store returning early fits the description of a commit, whatever its old map. */
  lemma CleanStoreFits(es: seq<StockEntry>, db: Db, remap: Remap)
    requires !Dirty(es)
    ensures StockRows(es, db, es, db) && RemapsNew(es, es, remap, remap) && StoresNew(es, es, db, db)
  {
    assert forall i :: 0 <= i < |es| ==> es[i].state == Clean;
    assert NewIds(es) == {} && NewTickers(es) == {};
  }

  lemma StockCommitDone(w: World)
    requires Sound(w)
    ensures CommitStocks(w.stocks, w.db, w.stockMap).Done?
    ensures StocksDoneFor(w, CommitStocks(w.stocks, w.db, w.stockMap).value)
  {
    if Dirty(w.stocks) {
      assert forall i :: 0 <= i < |w.stocks| ==> SoundStock(w, w.stocks[i]);
      CommitStockEntriesCommits(w.stocks, w.db, map[]);
    } else {
      CleanStoreFits(w.stocks, w.db, w.stockMap);
    }
  }

  /** After the stock commit an entry stands in the tables under its row ids. */
  predicate StoredStock(e: StockEntry, db: Db) {
    var s := e.value;
    && e.state == Clean
    && 1 <= s.instrumentId < db.nextInstrument && 1 <= s.id < db.nextStock
    && s.ticker in db.stocks && db.stocks[s.ticker] == s.instrumentId
  }

  lemma CommittedStocksStored(w: World, s: StocksDone, i: nat)
    requires Sound(w) && StocksDoneFor(w, s) && i < |w.stocks|
    ensures StoredStock(s.entries[i], s.db)
  {
    var e := w.stocks[i];
    assert SoundStock(w, e);
    if e.state == Clean {
      forall j | 0 <= j < |w.stocks| && w.stocks[j].state == New
        ensures w.stocks[j].value.ticker != e.value.ticker
      {
        assert SoundStock(w, w.stocks[j]);
      }
      assert e.value.ticker !in NewTickers(w.stocks);
    }
  }

  lemma CommittedStocksDistinct(w: World, s: StocksDone)
    requires Sound(w) && StocksDoneFor(w, s)
    ensures DistinctStocks(s.entries)
  {
    forall i, j | 0 <= i < j < |s.entries|
      ensures s.entries[i].value.id != s.entries[j].value.id
           && s.entries[i].value.instrumentId != s.entries[j].value.instrumentId
           && s.entries[i].value.ticker != s.entries[j].value.ticker
    {
      assert SoundStock(w, w.stocks[i]) && SoundStock(w, w.stocks[j]);
    }
  }

  lemma CommittedTickersKnown(w: World, s: StocksDone, t: string)
    requires Sound(w) && StocksDoneFor(w, s) && t in s.db.stocks
    ensures TickerKnown(s.entries, t)
  {
    if t in w.db.stocks {
      assert TickerKnown(w.stocks, t);
      var i :| 0 <= i < |w.stocks| && w.stocks[i].value.ticker == t;
      assert s.entries[i].value.ticker == t;
    } else {
      assert t in NewTickers(w.stocks);
      var i :| 0 <= i < |w.stocks| && w.stocks[i].state == New && w.stocks[i].value.ticker == t;
      assert s.entries[i].value.ticker == t;
    }
  }

  /** Every id the stocks' map lists is a temporary one, handed out to a stock. */
  lemma RemapKeys(w: World, s: StocksDone)
    requires Sound(w) && StocksDoneFor(w, s)
    ensures s.remap.Keys == StartMap(w).Keys + NewIds(w.stocks)
    ensures forall k :: k in s.remap ==> HandedOut(w, k)
    ensures s.remap.Keys !! w.optionMap.Keys && s.remap.Keys !! NewOptionIds(w.options)
  {
    forall k | k in s.remap
      ensures HandedOut(w, k)
    {
      if k in NewIds(w.stocks) {
        var i :| 0 <= i < |w.stocks| && w.stocks[i].state == New && w.stocks[i].value.instrumentId == k;
        assert SoundStock(w, w.stocks[i]);
      }
    }
  }

  /** What the stock commit made of one stock. */
  ghost predicate StockAfter(before: StockEntry, after: StockEntry, remap: Remap) {
    var id := before.value.instrumentId;
    && after.value.ticker == before.value.ticker
    && (before.state == New || before.state == Clean)
    && (before.state == New ==> id <= -2 && id in remap && remap[id] == after.value.instrumentId)
    && (before.state == Clean ==> id >= 1 && id !in remap && after == before)
  }

  lemma StockAfterCommit(w: World, s: StocksDone, i: nat)
    requires Sound(w) && StocksDoneFor(w, s) && i < |w.stocks|
    ensures StockAfter(w.stocks[i], s.entries[i], s.remap)
  {
    RemapKeys(w, s);
    assert SoundStock(w, w.stocks[i]);
  }

  /** An option the remap has passed over is on a stored stock, under the stock's committed id. */
  lemma RemappedIsOn(w: World, s: StocksDone, e: OptionEntry)
    requires Sound(w) && StocksDoneFor(w, s) && SoundOption(w, e)
    ensures e.state != New ==> e.value.underlying.instrumentId !in s.remap
    ensures On(s.entries, RemappedOption(e, s.remap).value.underlying)
  {
    var u := e.value.underlying;
    var i :| 0 <= i < |w.stocks| && w.stocks[i].value.instrumentId == u.instrumentId
             && w.stocks[i].value.ticker == u.ticker;
    StockAfterCommit(w, s, i);
  }

  /** The options that reach the insertions: as they were, on stored stocks. */
  ghost predicate RemapFor(w: World, s: StocksDone, es: seq<OptionEntry>) {
    && |es| == |w.options|
    && forall i :: 0 <= i < |es| ==>
         && es[i] == RemappedOption(w.options[i], s.remap)
         && On(s.entries, es[i].value.underlying)
  }

  lemma RemapDone(w: World, s: StocksDone)
    requires Sound(w) && StocksDoneFor(w, s)
    ensures RemapUnderlyings(w.options, s.remap).Done?
    ensures RemapFor(w, s, RemapUnderlyings(w.options, s.remap).value)
  {
    forall i | 0 <= i < |w.options|
      ensures w.options[i].state != New ==> w.options[i].value.underlying.instrumentId !in s.remap
      ensures On(s.entries, RemappedOption(w.options[i], s.remap).value.underlying)
    {
      assert SoundOption(w, w.options[i]);
      RemappedIsOn(w, s, w.options[i]);
    }
    RemapSucceedsExactlyWhen(w.options, s.remap);
  }

  ghost predicate SameIds(es: seq<OptionEntry>, es': seq<OptionEntry>) {
    && |es'| == |es|
    && forall i :: 0 <= i < |es| ==>
         && es'[i].state == es[i].state && es'[i].value.id == es[i].value.id
         && es'[i].value.instrumentId == es[i].value.instrumentId
  }

  lemma RemapKeepsIds(w: World, s: StocksDone, es: seq<OptionEntry>)
    requires RemapFor(w, s, es)
    ensures NewOptionIds(es) == NewOptionIds(w.options)
    ensures SameOptions(w.options, es) && SameIds(w.options, es)
  {
    assert forall i :: 0 <= i < |es| ==>
      es[i].state == w.options[i].state && es[i].value.instrumentId == w.options[i].value.instrumentId;
  }

  /**
   * The same options in the same order: names stay, and of their underlyings the ticker and the
   * stock id; the options' own ids and their underlyings' instrument ids may change.
   */
  ghost predicate SameOptions(es: seq<OptionEntry>, es': seq<OptionEntry>) {
    && |es'| == |es|
    && forall i :: 0 <= i < |es| ==>
         && es'[i].value.name == es[i].value.name
         && es'[i].value.underlying.ticker == es[i].value.underlying.ticker
         && es'[i].value.underlying.id == es[i].value.underlying.id
  }

  ghost predicate MapsOptions(es: seq<OptionEntry>, es': seq<OptionEntry>, remap: Remap)
    requires |es'| == |es|
  {
    forall i :: 0 <= i < |es| && es[i].state == New ==>
      && es[i].value.instrumentId in remap
      && remap[es[i].value.instrumentId] == es'[i].value.instrumentId
  }

  /** What the option commit leaves: clean options on stored stocks, and a map apart from the stocks'. */
  ghost predicate OptionsDoneFor(w: World, s: StocksDone, o: OptionsDone) {
    && SameOptions(w.options, o.entries)
    && MapsOptions(w.options, o.entries, o.remap)
    && (forall i :: 0 <= i < |o.entries| ==>
          && o.entries[i].state == Clean
          && o.entries[i].value.id >= 1 && o.entries[i].value.instrumentId >= 1
          && On(s.entries, o.entries[i].value.underlying))
    && o.remap.Keys !! s.remap.Keys
    && (forall k :: k in o.remap ==> HandedOut(w, k))
    && o.db.stocks == s.db.stocks && o.db.nextStock == s.db.nextStock
    && s.db.nextInstrument <= o.db.nextInstrument && s.db.nextOption <= o.db.nextOption
  }

  /** What the insertions need of one option. */
  ghost predicate Insertable(w: World, s: StocksDone, e: OptionEntry) {
    && (e.state == New || e.state == Clean)
    && (e.state == New ==> HandedOut(w, e.value.instrumentId))
    && (e.state == Clean ==> e.value.id >= 1 && e.value.instrumentId >= 1)
    && e.value.underlying.ticker in s.db.stocks
    && On(s.entries, e.value.underlying)
  }

  lemma RemappedIsInsertable(w: World, s: StocksDone, es: seq<OptionEntry>, i: nat)
    requires Sound(w) && StocksDoneFor(w, s) && RemapFor(w, s, es) && i < |es|
    ensures Insertable(w, s, es[i])
  {
    assert SoundOption(w, w.options[i]);
  }

  lemma InsertedAreDone(w: World, s: StocksDone, es: seq<OptionEntry>, o: OptionsDone)
    requires s.db.nextInstrument >= 1 && s.db.nextOption >= 1
    requires forall i :: 0 <= i < |es| ==> Insertable(w, s, es[i])
    requires OptionRows(es, s.db, o.entries, o.db)
    requires RemapsNewOptions(es, o.entries, map[], o.remap)
    requires NewOptionIds(es) !! s.remap.Keys && SameOptions(w.options, es) && SameIds(w.options, es)
    ensures OptionsDoneFor(w, s, o)
  {
    forall i | 0 <= i < |es|
      ensures o.entries[i].value.id >= 1 && o.entries[i].value.instrumentId >= 1
      ensures On(s.entries, o.entries[i].value.underlying)
    {
      assert Insertable(w, s, es[i]);
    }
    forall k | k in o.remap
      ensures HandedOut(w, k)
    {
      assert k in NewOptionIds(es);
      var i :| 0 <= i < |es| && es[i].state == New && es[i].value.instrumentId == k;
      assert Insertable(w, s, es[i]);
    }
  }

  lemma InsertedFor(w: World, s: StocksDone, es: seq<OptionEntry>)
    requires s.db.nextInstrument >= 1 && SameIds(w.options, es) && DistinctNewOptions(w.options)
    requires forall i :: 0 <= i < |es| ==> Insertable(w, s, es[i])
    ensures OptionsCommitted(es, s.db, map[], CommitOptionEntries(es, s.db, map[]))
  {
    assert forall i :: 0 <= i < |es| ==> Insertable(w, s, es[i]);
    CommitOptionEntriesCommits(es, s.db, map[]);
  }

  lemma RemappedAreInsertable(w: World, s: StocksDone, es: seq<OptionEntry>)
    requires Sound(w) && StocksDoneFor(w, s) && RemapFor(w, s, es)
    ensures forall i :: 0 <= i < |es| ==> Insertable(w, s, es[i])
  {
    forall i | 0 <= i < |es|
      ensures Insertable(w, s, es[i])
    {
      RemappedIsInsertable(w, s, es, i);
    }
  }

  lemma NewIdsApart(w: World, s: StocksDone, es: seq<OptionEntry>)
    requires Sound(w) && StocksDoneFor(w, s) && RemapFor(w, s, es)
    ensures NewOptionIds(es) !! s.remap.Keys && SameOptions(w.options, es) && SameIds(w.options, es)
    ensures s.db.nextInstrument >= 1 && s.db.nextOption >= 1
  {
    RemapKeepsIds(w, s, es);
    RemapKeys(w, s);
  }

  lemma InsertedDone(w: World, s: StocksDone, es: seq<OptionEntry>)
    requires s.db.nextInstrument >= 1 && s.db.nextOption >= 1 && DistinctNewOptions(w.options)
    requires forall i :: 0 <= i < |es| ==> Insertable(w, s, es[i])
    requires NewOptionIds(es) !! s.remap.Keys && SameOptions(w.options, es) && SameIds(w.options, es)
    ensures CommitOptionEntries(es, s.db, map[]).Done?
    ensures OptionsDoneFor(w, s, CommitOptionEntries(es, s.db, map[]).value)
  {
    InsertedFor(w, s, es);
    InsertedAreDone(w, s, es, CommitOptionEntries(es, s.db, map[]).value);
  }

  lemma DirtyOptionCommitDone(w: World, s: StocksDone)
    requires Sound(w) && StocksDoneFor(w, s) && Dirty(w.options)
    ensures CommitOptions(w.options, s.db, s.remap, w.optionMap).Done?
    ensures OptionsDoneFor(w, s, CommitOptions(w.options, s.db, s.remap, w.optionMap).value)
  {
    RemapDone(w, s);
    var es := RemapUnderlyings(w.options, s.remap).value;
    RemappedAreInsertable(w, s, es);
    NewIdsApart(w, s, es);
    InsertedDone(w, s, es);
  }

  lemma CleanOptionCommitDone(w: World, s: StocksDone)
    requires Sound(w) && StocksDoneFor(w, s) && !Dirty(w.options)
    ensures OptionsDoneFor(w, s, CommitDone(w.options, s.db, w.optionMap))
  {
    RemapKeys(w, s);
    forall i | 0 <= i < |w.options|
      ensures SoundOption(w, w.options[i]) && w.options[i].state == Clean
      ensures On(s.entries, w.options[i].value.underlying)
    {
      RemappedIsOn(w, s, w.options[i]);
    }
  }

  lemma OptionCommitDone(w: World, s: StocksDone)
    requires Sound(w) && StocksDoneFor(w, s)
    ensures CommitOptions(w.options, s.db, s.remap, w.optionMap).Done?
    ensures OptionsDoneFor(w, s, CommitOptions(w.options, s.db, s.remap, w.optionMap).value)
  {
    if Dirty(w.options) {
      DirtyOptionCommitDone(w, s);
    } else {
      CleanOptionCommitDone(w, s);
    }
  }

  function Committed(w: World, s: StocksDone, o: OptionsDone): World {
    w.(stocks := s.entries, stockMap := s.remap, options := o.entries, optionMap := o.remap, db := o.db)
  }

  lemma CommittedStocksSound(w: World, s: StocksDone, o: OptionsDone)
    requires Sound(w) && StocksDoneFor(w, s) && OptionsDoneFor(w, s, o)
    ensures StocksSound(Committed(w, s, o))
    ensures forall i :: 0 <= i < |s.entries| ==> SettledStock(s.entries[i])
  {
    var w' := Committed(w, s, o);
    CommittedStocksDistinct(w, s);
    forall i | 0 <= i < |s.entries|
      ensures SoundStock(w', s.entries[i]) && SettledStock(s.entries[i])
    {
      CommittedStocksStored(w, s, i);
    }
    forall t | t in w'.db.stocks
      ensures TickerKnown(s.entries, t)
    {
      CommittedTickersKnown(w, s, t);
    }
  }

  lemma CommittedOptionsSound(w: World, s: StocksDone, o: OptionsDone)
    requires Sound(w) && StocksDoneFor(w, s) && OptionsDoneFor(w, s, o)
    ensures OptionsSound(Committed(w, s, o))
    ensures forall i :: 0 <= i < |o.entries| ==> SettledOption(o.entries[i], o.db)
  {
    forall i | 0 <= i < |o.entries|
      ensures SoundOption(Committed(w, s, o), o.entries[i]) && SettledOption(o.entries[i], o.db)
    {
    }
  }

  /**
   * What a commit keeps and adds: the same entries in order, the new tickers in the tables, and in
   * the maps a line from every new entry's temporary id to its committed one.
   */
  ghost predicate CommitKeeps(w: World, w': World) {
    && |w'.stocks| == |w.stocks|
    && (forall i :: 0 <= i < |w.stocks| ==> w'.stocks[i].value.ticker == w.stocks[i].value.ticker)
    && SameOptions(w.options, w'.options) && MapsOptions(w.options, w'.options, w'.optionMap)
    && (forall i :: 0 <= i < |w.stocks| && w.stocks[i].state == New ==>
          && w.stocks[i].value.instrumentId in w'.stockMap
          && w'.stockMap[w.stocks[i].value.instrumentId] == w'.stocks[i].value.instrumentId)
    && w'.db.stocks.Keys == w.db.stocks.Keys + NewTickers(w.stocks)
    && w'.instrumentSeq == w.instrumentSeq && w'.stockSeq == w.stockSeq && w'.optionSeq == w.optionSeq
  }

  lemma CommittedMapsSound(w: World, s: StocksDone, o: OptionsDone)
    requires Sound(w) && StocksDoneFor(w, s) && OptionsDoneFor(w, s, o)
    ensures MapsSound(Committed(w, s, o)) && DistinctNewOptions(o.entries)
  {
    RemapKeys(w, s);
    assert NewIds(s.entries) == {} && NewOptionIds(o.entries) == {};
  }

  /**
   * From any reachable state a commit succeeds: no option is found already committed to a temporary
   * instrument id, the two maps combine, and no entry is left with a temporary id of its own, no
   * option with a temporary instrument id for its underlying.
   */
  lemma CommitSettles(w: World)
    requires Sound(w)
    ensures Commit(w).Done?
    ensures Sound(Commit(w).value) && Settled(Commit(w).value)
    ensures CommitKeeps(w, Commit(w).value)
  {
    StockCommitDone(w);
    var s := CommitStocks(w.stocks, w.db, w.stockMap).value;
    OptionCommitDone(w, s);
    var o := CommitOptions(w.options, s.db, s.remap, w.optionMap).value;
    CommittedStocksSound(w, s, o);
    CommittedOptionsSound(w, s, o);
    CommittedMapsSound(w, s, o);
    assert Commit(w) == Done(Committed(w, s, o));
  }

  // ------------------------------------------------------------------------ whole runs

  datatype Event = StockAdded(ticker: string) | OptionAdded(stock: nat, name: string, inTables: bool) | Saved

  function Step(w: World, e: Event): Outcome<World> {
    match e
    case StockAdded(ticker) => Done(AddStock(w, ticker))
    case OptionAdded(stock, name, inTables) => Done(AddOption(w, stock, name, inTables))
    case Saved => Commit(w)
  }

  /** The events in order, stopping at the first exception. */
  function Run(w: World, events: seq<Event>): Outcome<World>
    decreases |events|
  {
    if events == [] then Done(w)
    else
      match Run(w, events[..|events| - 1])
      case Done(w') => Step(w', events[|events| - 1])
      case other => other
  }

  /** Stores just filled from the tables: everything clean, no id handed out, no maps. */
  ghost predicate Fresh(w: World) {
    && w.instrumentSeq == -2 && w.stockSeq == -2 && w.optionSeq == -2
    && w.stockMap == map[] && w.optionMap == map[]
    && !Dirty(w.stocks) && !Dirty(w.options)
    && w.db.nextInstrument >= 1 && w.db.nextStock >= 1 && w.db.nextOption >= 1
    && StocksSound(w) && OptionsSound(w) && !HasTemporaryStockId(w)
  }

  /** An option's copy of its underlying carries a temporary stock id. */
  predicate TemporaryStockId(e: OptionEntry) {
    IsTemporary(e.value.underlying.id)
  }

  predicate HasTemporaryStockId(w: World) {
    exists i :: 0 <= i < |w.options| && TemporaryStockId(w.options[i])
  }

  lemma FreshIsSound(w: World)
    requires Fresh(w)
    ensures Sound(w)
  {
    assert NewIds(w.stocks) == {};
  }

  /** Every step from a reachable state succeeds and leads to one. */
  lemma StepKeepsSound(w: World, e: Event)
    requires Sound(w)
    ensures Step(w, e).Done? && Sound(Step(w, e).value)
  {
    match e
    case StockAdded(ticker) => AddStockKeepsSound(w, ticker);
    case OptionAdded(stock, name, inTables) => AddOptionKeepsSound(w, stock, name, inTables);
    case Saved => CommitSettles(w);
  }

  lemma {:induction false} RunKeepsSound(w: World, events: seq<Event>)
    requires Sound(w)
    ensures Run(w, events).Done? && Sound(Run(w, events).value)
    decreases |events|
  {
    if events != [] {
      var before := events[..|events| - 1];
      RunKeepsSound(w, before);
      StepKeepsSound(Run(w, before).value, events[|events| - 1]);
    }
  }

  /**
   * Over every run no exception is thrown, and after every save no entry has a temporary id of its
   * own and no option a temporary instrument id for its underlying.
   */
  lemma RunsSettle(w: World, events: seq<Event>)
    requires Fresh(w)
    ensures Run(w, events).Done? && Sound(Run(w, events).value)
    ensures events != [] && events[|events| - 1] == Saved ==> Settled(Run(w, events).value)
  {
    FreshIsSound(w);
    RunKeepsSound(w, events);
    if events != [] {
      var before := events[..|events| - 1];
      RunKeepsSound(w, before);
      CommitSettles(Run(w, before).value);
    }
  }
}
