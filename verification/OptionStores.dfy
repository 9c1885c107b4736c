/** The option store as an object that updates its entries in place (src/store/src/store/option_store.cpp). */
module OptionStores {
  import opened BaseStores
  import opened InstrumentStores
  import opened StockStores
  import P = InstrumentProtocol

  function OptionId(o: OptionContract): int {
    o.id
  }

  lemma {:induction false} RemapFailsOneWay(es: seq<OptionEntry>, remap: Remap)
    ensures RemapUnderlyings(es, remap).Done? || RemapUnderlyings(es, remap).AlreadyCommitted?
    decreases es
  {
    if es != [] {
      RemapFailsOneWay(es[1..], remap);
    }
  }

  /** Half-way through the remap: entries before the index are remapped, the others untouched. */
  ghost predicate RemappedUpTo(es: seq<OptionEntry>, i: nat, now: seq<OptionEntry>, remap: Remap) {
    && i <= |now| == |es|
    && (forall k :: 0 <= k < i ==> now[k] == P.RemappedOption(es[k], remap))
    && (forall k :: i <= k < |es| ==> now[k] == es[k])
    && (forall k :: 0 <= k < i && es[k].state != New ==> es[k].value.underlying.instrumentId !in remap)
  }

  lemma RemapReaches(es: seq<OptionEntry>, now: seq<OptionEntry>, remap: Remap)
    requires RemappedUpTo(es, |es|, now, remap)
    ensures RemapUnderlyings(es, remap) == Done(now)
  {
    P.RemapSucceedsExactlyWhen(es, remap);
    assert P.CommittedApart(es, remap);
    assert RemapUnderlyings(es, remap).value == now;
  }

  lemma RemapRefuses(es: seq<OptionEntry>, i: nat, remap: Remap)
    requires i < |es| && es[i].state != New && es[i].value.underlying.instrumentId in remap
    ensures RemapUnderlyings(es, remap) == AlreadyCommitted
  {
    P.RemapSucceedsExactlyWhen(es, remap);
    RemapFailsOneWay(es, remap);
    assert !P.CommittedApart(es, remap);
  }

  lemma RemapStep(es: seq<OptionEntry>, i: nat, now: seq<OptionEntry>, remap: Remap)
    requires i < |es| && RemappedUpTo(es, i, now, remap) && Findable(now, 0, OptionId)
    requires es[i].state == New || es[i].value.underlying.instrumentId !in remap
    ensures RemappedUpTo(es, i + 1, now[i := P.RemappedOption(es[i], remap)], remap)
    ensures Findable(now[i := P.RemappedOption(es[i], remap)], 0, OptionId)
  {
  }

  class OptionStore {
    var entries: seq<OptionEntry>
    var instrumentIdMap: Remap
    var idSeq: int

    constructor (stored: seq<OptionEntry>)
      ensures entries == stored && instrumentIdMap == map[] && idSeq == -2
    {
      entries, instrumentIdMap, idSeq := stored, map[], -2;
    }

    /** An entry that is not deleted has the name, or the tables say an option of that name exists. */
    method OptionExists(name: string, inTables: bool) returns (known: bool)
      ensures known == (P.NameKnown(entries, name) || inTables)
    {
      for i := 0 to |entries|
        invariant forall k :: 0 <= k < i && entries[k].state != Deleted ==> entries[k].value.name != name
      {
        if entries[i].state != Deleted && entries[i].value.name == name {
          return true;
        }
      }
      return inTables;
    }

    method AddOption(underlying: Stock, name: string, inTables: bool, instrumentIds: IdSequence)
      returns (added: bool)
      modifies this, instrumentIds
      ensures added == !(P.NameKnown(old(entries), name) || inTables)
      ensures added ==>
        && entries == old(entries)
             + [Entry(OptionContract(old(idSeq), old(instrumentIds.upcoming), underlying, name), New)]
        && idSeq == old(idSeq) - 1 && instrumentIds.upcoming == old(instrumentIds.upcoming) - 1
      ensures !added ==>
        entries == old(entries) && idSeq == old(idSeq) && instrumentIds.upcoming == old(instrumentIds.upcoming)
      ensures instrumentIdMap == old(instrumentIdMap)
    {
      var known := OptionExists(name, inTables);
      if known {
        return false;
      }
      var instrumentId := instrumentIds.Next();
      entries := entries + [Entry(OptionContract(idSeq, instrumentId, underlying, name), New)];
      idSeq := idSeq - 1;
      added := true;
    }

    /** Move new options to the committed ids of their underlyings; stop at a committed option on a mapped id. */
    method OnInstrumentIdRemap(remap: Remap) returns (r: Outcome<()>)
      requires Findable(entries, 0, OptionId)
      modifies this
      ensures r == Kind(RemapUnderlyings(old(entries), remap))
      ensures r.Done? ==>
        entries == RemapUnderlyings(old(entries), remap).value && Findable(entries, 0, OptionId)
      ensures idSeq == old(idSeq) && instrumentIdMap == old(instrumentIdMap)
    {
      ghost var es := entries;
      var i := 0;
      while i < |entries|
        invariant i <= |entries| == |es|
        invariant RemappedUpTo(es, i, entries, remap) && Findable(entries, 0, OptionId)
        invariant idSeq == old(idSeq) && instrumentIdMap == old(instrumentIdMap)
      {
        var e := entries[i];
        var u := e.value.underlying.instrumentId;
        if e.state != New {
          if u in remap {
            RemapRefuses(es, i, remap);
            return AlreadyCommitted;
          }
        } else if u in remap {
          RemapStep(es, i, entries, remap);
          var at := FindEntry(entries, e.value.id, OptionId);
          assert OptionId(entries[i].value) == e.value.id;
          assert at == i;
          var option := e.value.(underlying := e.value.underlying.(instrumentId := remap[u]));
          entries := entries[at := Entry(option, New)];
        }
        i := i + 1;
      }
      RemapReaches(es, entries, remap);
      r := Done(());
    }

    method CommitNew(i: nat, service: InstrumentService)
      requires i < |entries| && entries[i].state == New && Findable(entries, i, OptionId)
      modifies this, service
      ensures entries == old(entries)[i := P.CommittedOption(old(entries[i]), old(service.db))]
      ensures service.db == P.OptionDbAfter(old(entries[i]), old(service.db))
      ensures instrumentIdMap == P.OptionRemapAfter(old(entries[i]), old(service.db), old(instrumentIdMap))
      ensures idSeq == old(idSeq)
    {
      var o := entries[i].value;
      var id, instrumentId := service.AddOption(o);
      var at := FindEntry(entries, o.id, OptionId);
      assert OptionId(entries[i].value) == o.id;
      assert at == i;
      entries := entries[at := Entry(o.(id := id, instrumentId := instrumentId), Clean)];
      if o.instrumentId != instrumentId {
        instrumentIdMap := instrumentIdMap[o.instrumentId := instrumentId];
      }
    }

    /** Insert the new entries one by one, from an empty map. */
    method CommitEntries(service: InstrumentService) returns (r: Outcome<()>)
      requires Findable(entries, 0, OptionId) && service.db.nextOption >= 1
      modifies this, service
      ensures r == Kind(CommitOptionEntries(old(entries), old(service.db), map[]))
      ensures r.Done? ==>
        CommitDone(entries, service.db, instrumentIdMap)
          == CommitOptionEntries(old(entries), old(service.db), map[]).value
      ensures idSeq == old(idSeq)
    {
      instrumentIdMap := map[];
      ghost var es := entries;
      ghost var all := CommitOptionEntries(es, service.db, map[]);
      CommitStarts(es, all);
      var i := 0;
      while i < |entries|
        invariant i <= |entries| == |es| && service.db.nextOption >= 1
        invariant Reached(es, i, entries, OptionId)
        invariant idSeq == old(idSeq)
        invariant all == After(entries[..i], CommitOptionEntries(es[i..], service.db, instrumentIdMap))
      {
        match entries[i].state {
          case New =>
            CommitStep(es, i, entries[..i], service.db, instrumentIdMap, InsertedOption, OptionInstrument);
            ReachedStep(es, i, entries, P.CommittedOption(es[i], service.db), OptionId);
            CommitNew(i, service);
          case Clean =>
            CommitStep(es, i, entries[..i], service.db, instrumentIdMap, InsertedOption, OptionInstrument);
            ReachedStep(es, i, entries, es[i], OptionId);
          case _ =>
            return NotYetImplemented;
        }
        i := i + 1;
      }
      CommitEnds(es, entries, service.db, instrumentIdMap, InsertedOption, OptionInstrument);
      r := Done(());
    }

    method Commit(remap: Remap, service: InstrumentService) returns (r: Outcome<()>)
      requires Findable(entries, 0, OptionId)
      requires service.db.nextOption >= 1
      modifies this, service
      ensures r == Kind(CommitOptions(old(entries), old(service.db), remap, old(instrumentIdMap)))
      ensures r.Done? ==>
        CommitDone(entries, service.db, instrumentIdMap)
          == CommitOptions(old(entries), old(service.db), remap, old(instrumentIdMap)).value
      ensures idSeq == old(idSeq)
    {
      var dirty := IsDirty(entries);
      if !dirty {
        return Done(());
      }
      r := OnInstrumentIdRemap(remap);
      if r.Done? {
        r := CommitEntries(service);
      }
    }
  }
}
