/** Both stores and what they share, saved together (src/store/src/store/store_container.cpp). */
module StoreContainer {
  import opened BaseStores
  import opened InstrumentStores
  import opened InstrumentProtocol
  import opened StockStores
  import opened OptionStores

  /** Every new option can be found by its id. */
  lemma SoundIsFindable(w: World)
    requires Sound(w)
    ensures Findable(w.stocks, 0, StockId)
    ensures Findable(w.options, 0, OptionId)
  {
    assert forall i :: 0 <= i < |w.stocks| ==> SoundStock(w, w.stocks[i]);
    assert forall i :: 0 <= i < |w.options| ==> SoundOption(w, w.options[i]);
  }

  /** Add the lines of one map to another, giving up at the first id both list. */
  method Combine<K(==), V>(a: map<K, V>, b: map<K, V>) returns (ok: bool, c: map<K, V>)
    ensures ok == (a.Keys * b.Keys == {})
    ensures ok ==> c == a + b
  {
    c := a;
    var left := b.Keys;
    while left != {}
      invariant left <= b.Keys
      invariant c.Keys == a.Keys + (b.Keys - left)
      invariant a.Keys * (b.Keys - left) == {}
      invariant forall k :: k in b && k !in left ==> c[k] == b[k]
      invariant forall k :: k in a && k !in b ==> c[k] == a[k]
      decreases left
    {
      var k :| k in left;
      if k in c {
        assert k in a.Keys * b.Keys;
        return false, c;
      }
      c := c[k := b[k]];
      left := left - {k};
    }
    assert b.Keys - left == b.Keys;
    assert forall k :: k in a && k in b ==> k in a.Keys * (b.Keys - left);
    assert c == a + b;
    ok := true;
  }

  ghost function StocksOf(w: World): StocksDone
    requires CommitStocks(w.stocks, w.db, w.stockMap).Done?
  {
    CommitStocks(w.stocks, w.db, w.stockMap).value
  }

  ghost function OptionsOf(w: World, s: StocksDone): OptionsDone
    requires CommitOptions(w.options, s.db, s.remap, w.optionMap).Done?
  {
    CommitOptions(w.options, s.db, s.remap, w.optionMap).value
  }

  /** The two halves of a commit succeed, and their maps are apart. */
  lemma CommitPlan(w: World)
    requires Sound(w)
    ensures CommitStocks(w.stocks, w.db, w.stockMap).Done?
    ensures CommitOptions(w.options, StocksOf(w).db, StocksOf(w).remap, w.optionMap).Done?
    ensures StocksOf(w).db.nextOption >= 1 && StocksOf(w).db.nextInstrument >= 1
    ensures StocksOf(w).remap.Keys * OptionsOf(w, StocksOf(w)).remap.Keys == {}
    ensures Commit(w) == Done(Committed(w, StocksOf(w), OptionsOf(w, StocksOf(w))))
  {
    StockCommitDone(w);
    OptionCommitDone(w, StocksOf(w));
  }

  class Stores {
    const stocks: StockStore
    const options: OptionStore
    const instrumentIds: IdSequence
    const service: InstrumentService

    /** Fill both stores from the tables. */
    constructor (storedStocks: seq<StockEntry>, storedOptions: seq<OptionEntry>, db: Db)
      requires Fresh(World(storedStocks, map[], storedOptions, map[], -2, -2, -2, db))
      ensures fresh(stocks) && fresh(options) && fresh(instrumentIds) && fresh(service)
      ensures State() == World(storedStocks, map[], storedOptions, map[], -2, -2, -2, db)
      ensures Valid()
    {
      stocks := new StockStore(storedStocks);
      options := new OptionStore(storedOptions);
      instrumentIds := new IdSequence();
      service := new InstrumentService(db);
      new;
      FreshIsSound(State());
    }

    ghost function State(): World
      reads stocks, options, instrumentIds, service
    {
      World(stocks.entries, stocks.instrumentIdMap, options.entries, options.instrumentIdMap,
            instrumentIds.upcoming, stocks.idSeq, options.idSeq, service.db)
    }

    ghost predicate Valid()
      reads stocks, options, instrumentIds, service
    {
      Sound(State())
    }

    method AddStock(ticker: string) returns (added: bool)
      requires Valid()
      modifies stocks, instrumentIds
      ensures Valid() && State() == InstrumentProtocol.AddStock(old(State()), ticker)
      ensures added == !TickerKnown(old(stocks.entries), ticker)
    {
      AddStockKeepsSound(State(), ticker);
      added := stocks.AddStock(ticker, instrumentIds);
    }

    /** Add an option on the stock at an index of the store. */
    method AddOption(stock: nat, name: string, inTables: bool) returns (added: bool)
      requires Valid() && stock < |stocks.entries|
      modifies options, instrumentIds
      ensures Valid() && State() == InstrumentProtocol.AddOption(old(State()), stock, name, inTables)
      ensures added == !(NameKnown(old(options.entries), name) || inTables)
    {
      AddOptionKeepsSound(State(), stock, name, inTables);
      added := options.AddOption(stocks.entries[stock].value, name, inTables, instrumentIds);
    }

    /**
     * Save both stores. It never throws, and returns the joint map from every temporary instrument id of this
     * save's stocks and options to the committed one.
     */
    method Commit() returns (r: Outcome<Remap>)
      requires Valid()
      modifies stocks, options, service
      ensures InstrumentProtocol.Commit(old(State())) == Done(State())
      ensures Valid() && Settled(State())
      ensures r == Done(State().stockMap + State().optionMap)
    {
      ghost var w := State();
      SoundIsFindable(w);
      CommitPlan(w);
      CommitSettles(w);
      var saved := stocks.Commit(service);
      assert CommitDone(stocks.entries, service.db, stocks.instrumentIdMap) == StocksOf(w);
      var remap := stocks.instrumentIdMap;
      saved := options.Commit(remap, service);
      assert CommitDone(options.entries, service.db, options.instrumentIdMap) == OptionsOf(w, StocksOf(w));
      assert State() == Committed(w, StocksOf(w), OptionsOf(w, StocksOf(w)));
      var combined, both := Combine(remap, options.instrumentIdMap);
      if !combined {
        return CannotCombine;
      }
      r := Done(both);
    }
  }
}
