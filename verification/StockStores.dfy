/**
 * The stock store as an object that updates its entries in place
 * (src/store/src/store/base/base_store.tpp, src/store/src/store/stock_store.cpp).
 */
module StockStores {
  import opened BaseStores
  import opened InstrumentStores
  import P = InstrumentProtocol

  /** The source of temporary ids, shared by the stores. */
  class IdSequence {
    var upcoming: int

    constructor ()
      ensures upcoming == -2
    {
      upcoming := -2;
    }

    method Next() returns (id: int)
      modifies this
      ensures id == old(upcoming) && upcoming == old(upcoming) - 1
    {
      id := upcoming;
      upcoming := upcoming - 1;
    }
  }

  /** The service in front of the tables. */
  class InstrumentService {
    var db: Db

    constructor (initial: Db)
      ensures db == initial
    {
      db := initial;
    }

    method AddStock(s: Stock) returns (id: int, instrumentId: int)
      modifies this
      ensures db == InsertStock(old(db), s)
      ensures id == old(db.nextStock) && instrumentId == old(db.nextInstrument)
    {
      id, instrumentId := db.nextStock, db.nextInstrument;
      db := db.(stocks := db.stocks[s.ticker := instrumentId],
                nextInstrument := instrumentId + 1, nextStock := id + 1);
    }

    method AddOption(o: OptionContract) returns (id: int, instrumentId: int)
      modifies this
      ensures db == InsertOption(old(db), o)
      ensures id == db.nextOption - 1 && instrumentId == db.nextInstrument - 1
    {
      if o.underlying.ticker !in db.stocks {
        var _, _ := AddStock(o.underlying);
      }
      id, instrumentId := db.nextOption, db.nextInstrument;
      db := db.(nextInstrument := db.nextInstrument + 1, nextOption := db.nextOption + 1);
    }
  }

  function StockId(s: Stock): int {
    s.id
  }

  class StockStore {
    var entries: seq<StockEntry>
    var instrumentIdMap: Remap
    var idSeq: int

    constructor (stored: seq<StockEntry>)
      ensures entries == stored && instrumentIdMap == map[] && idSeq == -2
    {
      entries, instrumentIdMap, idSeq := stored, map[], -2;
    }

    method StockExists(ticker: string) returns (known: bool)
      ensures known == P.TickerKnown(entries, ticker)
    {
      for i := 0 to |entries|
        invariant forall k :: 0 <= k < i ==> entries[k].value.ticker != ticker
      {
        if entries[i].value.ticker == ticker {
          return true;
        }
      }
      return false;
    }

    method AddStock(ticker: string, instrumentIds: IdSequence) returns (added: bool)
      modifies this, instrumentIds
      ensures added == !P.TickerKnown(old(entries), ticker)
      ensures added ==>
        && entries == old(entries)
             + [Entry(Stock(old(idSeq), old(instrumentIds.upcoming), ticker), New)]
        && idSeq == old(idSeq) - 1 && instrumentIds.upcoming == old(instrumentIds.upcoming) - 1
      ensures !added ==>
        entries == old(entries) && idSeq == old(idSeq) && instrumentIds.upcoming == old(instrumentIds.upcoming)
      ensures instrumentIdMap == old(instrumentIdMap)
    {
      var known := StockExists(ticker);
      if known {
        return false;
      }
      var instrumentId := instrumentIds.Next();
      entries := entries + [Entry(Stock(idSeq, instrumentId, ticker), New)];
      idSeq := idSeq - 1;
      added := true;
    }

    /** Insert one new entry, find it again by its temporary id, and replace it there. */
    method CommitNew(i: nat, service: InstrumentService)
      requires i < |entries| && entries[i].state == New && Findable(entries, i, StockId)
      modifies this, service
      ensures entries == old(entries)[i := CommittedStock(old(entries[i]), old(service.db))]
      ensures service.db == StockDbAfter(old(entries[i]), old(service.db))
      ensures instrumentIdMap == StockRemapAfter(old(entries[i]), old(service.db), old(instrumentIdMap))
      ensures idSeq == old(idSeq)
    {
      var s := entries[i].value;
      var id, instrumentId := service.AddStock(s);
      var at := FindEntry(entries, s.id, StockId);
      assert StockId(entries[i].value) == s.id;
      assert at == i;
      entries := entries[at := Entry(s.(id := id, instrumentId := instrumentId), Clean)];
      if s.instrumentId != instrumentId {
        instrumentIdMap := instrumentIdMap[s.instrumentId := instrumentId];
      }
    }

    /** Insert the new entries one by one. */
    method Commit(service: InstrumentService) returns (r: Outcome<()>)
      requires Findable(entries, 0, StockId) && service.db.nextStock >= 1
      modifies this, service
      ensures r == Kind(CommitStocks(old(entries), old(service.db), old(instrumentIdMap)))
      ensures r.Done? ==>
        CommitDone(entries, service.db, instrumentIdMap)
          == CommitStocks(old(entries), old(service.db), old(instrumentIdMap)).value
      ensures idSeq == old(idSeq)
    {
      var dirty := IsDirty(entries);
      if !dirty {
        return Done(());
      }
      instrumentIdMap := map[];
      ghost var es := entries;
      ghost var all := CommitStockEntries(es, service.db, map[]);
      CommitStarts(es, all);
      var i := 0;
      while i < |entries|
        invariant i <= |entries| == |es| && service.db.nextStock >= 1
        invariant Reached(es, i, entries, StockId)
        invariant idSeq == old(idSeq)
        invariant all == After(entries[..i], CommitStockEntries(es[i..], service.db, instrumentIdMap))
      {
        match entries[i].state {
          case New =>
            CommitStep(es, i, entries[..i], service.db, instrumentIdMap, InsertedStock, StockInstrument);
            ReachedStep(es, i, entries, CommittedStock(es[i], service.db), StockId);
            CommitNew(i, service);
          case Clean =>
            CommitStep(es, i, entries[..i], service.db, instrumentIdMap, InsertedStock, StockInstrument);
            ReachedStep(es, i, entries, es[i], StockId);
          case _ =>
            return NotYetImplemented;
        }
        i := i + 1;
      }
      CommitEnds(es, entries, service.db, instrumentIdMap, InsertedStock, StockInstrument);
      r := Done(());
    }
  }
}
