/**
 * The stock id inside an option's copy of its underlying (src/finance/src/finance/instrument/option.cpp):
 * a save moves the copy to the stock's committed instrument id and leaves its stock id as it was.
 */
module UnderlyingStockIds {
  import opened BaseStores
  import opened InstrumentStores
  import opened InstrumentProtocol

  /** The event adds an option. */
  predicate Adds(w: World, e: Event) {
    e.OptionAdded? && e.stock < |w.stocks| && !NameKnown(w.options, e.name) && !e.inTables
  }

  /** The event adds an option on a stock that has not been saved yet. */
  predicate AddsOnNew(w: World, e: Event) {
    Adds(w, e) && w.stocks[e.stock].state == New
  }

  /** Some event of the run adds an option on a stock that has not been saved by then. */
  predicate AddedOnNew(w: World, events: seq<Event>)
    decreases |events|
  {
    events != [] &&
    var before := events[..|events| - 1];
    (AddedOnNew(w, before) || (Run(w, before).Done? && AddsOnNew(Run(w, before).value, events[|events| - 1])))
  }

  /** A step keeps the options in place, with their stock ids, and adds at most one. */
  lemma StepKeepsStockIds(w: World, e: Event)
    requires Sound(w) && Step(w, e).Done?
    ensures var w' := Step(w, e).value;
      && |w'.options| == |w.options| + (if Adds(w, e) then 1 else 0)
      && forall i :: 0 <= i < |w.options| ==>
           w'.options[i].value.underlying.id == w.options[i].value.underlying.id
  {
    if e == Saved {
      CommitSettles(w);
      assert SameOptions(w.options, Step(w, e).value.options);
    }
  }

  lemma {:induction false} RunKeepsStockIds(w: World, events: seq<Event>, i: nat)
    requires Sound(w) && i < |w.options|
    ensures Run(w, events).Done? && i < |Run(w, events).value.options|
    ensures Run(w, events).value.options[i].value.underlying.id == w.options[i].value.underlying.id
    decreases |events|
  {
    RunKeepsSound(w, events);
    if events != [] {
      var before := events[..|events| - 1];
      RunKeepsSound(w, before);
      RunKeepsStockIds(w, before, i);
      StepKeepsStockIds(Run(w, before).value, events[|events| - 1]);
    }
  }

  /** The copy inside a new option has the stock's id: temporary exactly while the stock is new. */
  lemma AddedStockIdExactlyWhen(w: World, e: Event)
    requires Sound(w) && Adds(w, e)
    ensures Step(w, e).Done? && |Step(w, e).value.options| == |w.options| + 1
    ensures TemporaryStockId(Step(w, e).value.options[|w.options|]) <==> w.stocks[e.stock].state == New
  {
    assert SoundStock(w, w.stocks[e.stock]);
  }

  /**
   * Whatever happens after an option is added, saves included, its copy of the underlying has a
   * temporary stock id exactly if the stock was not saved when the option was added.
   */
  lemma NoSaveRepairsStockId(w: World, e: Event, later: seq<Event>)
    requires Sound(w) && Adds(w, e)
    ensures Step(w, e).Done? && Run(Step(w, e).value, later).Done?
    ensures var end := Run(Step(w, e).value, later).value;
      && |w.options| < |end.options|
      && (TemporaryStockId(end.options[|w.options|]) <==> w.stocks[e.stock].state == New)
  {
    AddedStockIdExactlyWhen(w, e);
    StepKeepsSound(w, e);
    RunKeepsStockIds(Step(w, e).value, later, |w.options|);
  }

  lemma StepLeavesTemporaryExactlyWhen(w: World, e: Event)
    requires Sound(w)
    ensures Step(w, e).Done?
    ensures HasTemporaryStockId(Step(w, e).value) <==> HasTemporaryStockId(w) || AddsOnNew(w, e)
  {
    StepKeepsSound(w, e);
    StepKeepsStockIds(w, e);
    var w' := Step(w, e).value;
    if Adds(w, e) {
      AddedStockIdExactlyWhen(w, e);
    }
    if HasTemporaryStockId(w) {
      var i :| 0 <= i < |w.options| && TemporaryStockId(w.options[i]);
      assert TemporaryStockId(w'.options[i]);
    }
    if HasTemporaryStockId(w') {
      var i :| 0 <= i < |w'.options| && TemporaryStockId(w'.options[i]);
      assert i < |w.options| ==> TemporaryStockId(w.options[i]);
    }
  }

  /**
   * Over every run, saves included, some option is left with a temporary stock id inside exactly if
   * some option was added on a stock not saved by then.
   */
  lemma {:induction false} TemporaryStockIdsExactlyWhen(w: World, events: seq<Event>)
    requires Fresh(w)
    ensures Run(w, events).Done?
    ensures HasTemporaryStockId(Run(w, events).value) <==> AddedOnNew(w, events)
    decreases |events|
  {
    FreshIsSound(w);
    if events != [] {
      var before := events[..|events| - 1];
      TemporaryStockIdsExactlyWhen(w, before);
      RunKeepsSound(w, before);
      StepLeavesTemporaryExactlyWhen(Run(w, before).value, events[|events| - 1]);
    }
  }

  lemma RunOne(w: World, a: Event)
    ensures Run(w, [a]) == Step(w, a)
  {
    assert [a][..0] == [] && Run(w, []) == Done(w);
  }

  lemma RunTwo(w: World, a: Event, b: Event)
    requires Step(w, a).Done?
    ensures Run(w, [a, b]) == Step(Step(w, a).value, b)
  {
    RunOne(w, a);
    assert [a, b][..1] == [a];
  }

  lemma RunThree(w: World, a: Event, b: Event, c: Event)
    requires Step(w, a).Done? && Step(Step(w, a).value, b).Done?
    ensures Run(w, [a, b, c]) == Step(Step(Step(w, a).value, b).value, c)
  {
    RunTwo(w, a, b);
    assert [a, b, c][..2] == [a, b];
  }

  /** The shortest such run: from empty stores, a stock, an option on it, and a save. */
  lemma SavedOptionWithTemporaryStockId(w: World)
    requires w == World([], map[], [], map[], -2, -2, -2, Db(1, 1, 1, map[]))
    ensures Fresh(w)
    ensures var r := Run(w, [StockAdded("A"), OptionAdded(0, "n", false), Saved]);
      && r.Done? && Settled(r.value)
      && |r.value.options| == 1 && TemporaryStockId(r.value.options[0])
  {
    var add, on := StockAdded("A"), OptionAdded(0, "n", false);
    var w1 := Step(w, add).value;
    FreshIsSound(w);
    RunsSettle(w, [add, on, Saved]);
    StepKeepsSound(w, add);
    RunThree(w, add, on, Saved);
    RunOne(Step(w1, on).value, Saved);
    NoSaveRepairsStockId(w1, on, [Saved]);
    StepKeepsSound(w1, on);
    StepKeepsStockIds(Step(w1, on).value, Saved);
  }
}
