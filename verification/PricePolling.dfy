/**
 * Polling prices in the background and gating them into the cache
 * (src/controller/src/controller/position_controller.cpp, src/finance/src/finance/price_cache.cpp).
 */
module PricePolling {
  import opened Options
  import Sets

  // ------------------------------------------------------------------------ the state machine

  /** The watched future: none awaited, running on a snapshot of the tickers, or done but not yet reported. */
  datatype Fetch<Q> = Idle | Running(snapshot: set<string>) | Ready(snapshot: set<string>, result: map<string, Q>)

  datatype Polling<Q> = Polling(tickers: set<string>, fetch: Fetch<Q>, expected: nat, cache: map<string, Q>)

  /** What a batch yields when the feed can answer for the given symbols only. */
  function Batch<Q>(symbols: set<string>, answers: map<string, Q>): map<string, Q> {
    map s | s in symbols && s in answers :: answers[s]
  }

  /** Start a fetch, unless one is running or there is nothing to ask for. */
  function AfterFetchPrices<Q>(p: Polling<Q>): Polling<Q> {
    if p.fetch.Running? || p.tickers == {} then p
    else p.(expected := |p.tickers|, fetch := Running(p.tickers))
  }

  /** Merge a finished batch into the cache if it has as many quotes as tickers were asked for. */
  function AfterPricesFetched<Q>(p: Polling<Q>): Polling<Q> {
    if !p.fetch.Ready? then p
    else if |p.fetch.result| == p.expected then p.(cache := p.cache + p.fetch.result, fetch := Idle)
    else p.(fetch := Idle)
  }

  datatype Event<Q> =
    | TimerTicked
    | TransactionsAdded(tickers: set<string>)
    | FetchEnded(answers: map<string, Q>)
    | FinishedDelivered

  /** A fetch started over a finished one replaces it: its result is never reported. */
  function Step<Q>(p: Polling<Q>, e: Event<Q>): Polling<Q> {
    match e
    case TimerTicked => AfterFetchPrices(p)
    case TransactionsAdded(tickers) => AfterFetchPrices(p.(tickers := p.tickers + tickers))
    case FetchEnded(answers) =>
      if p.fetch.Running? then p.(fetch := Ready(p.fetch.snapshot, Batch(p.fetch.snapshot, answers))) else p
    case FinishedDelivered => AfterPricesFetched(p)
  }

  function Run<Q>(p: Polling<Q>, events: seq<Event<Q>>): Polling<Q>
    decreases |events|
  {
    if events == [] then p else Run(Step(p, events[0]), events[1..])
  }

  /** A controller that has just collected its first tickers, over a fresh cache. */
  function Started<Q>(tickers: set<string>): Polling<Q> {
    AfterFetchPrices(Polling(tickers, Idle, 0, map[]))
  }

  // ------------------------------------------------------------------------ the accepted batches

  /** The batch a step lets through the gate, if it does. */
  function AcceptedBy<Q>(p: Polling<Q>, e: Event<Q>): Option<map<string, Q>> {
    if e.FinishedDelivered? && p.fetch.Ready? && |p.fetch.result| == p.expected then Some(p.fetch.result) else None
  }

  /** The last batch a run lets through, or the one before it. */
  function LastAccepted<Q>(p: Polling<Q>, events: seq<Event<Q>>, before: map<string, Q>): map<string, Q>
    decreases |events|
  {
    if events == [] then before
    else
      var a := AcceptedBy(p, events[0]);
      LastAccepted(Step(p, events[0]), events[1..], if a.Some? then a.value else before)
  }

  /** A fetch under way asks for at least every cached ticker, and its size is the one expected. */
  ghost predicate Consistent<Q>(p: Polling<Q>) {
    && p.cache.Keys <= p.tickers
    && (!p.fetch.Idle? ==>
          && p.cache.Keys <= p.fetch.snapshot <= p.tickers
          && p.expected == |p.fetch.snapshot|)
    && (p.fetch.Ready? ==> p.fetch.result.Keys <= p.fetch.snapshot)
  }

  lemma StepKeepsConsistent<Q>(p: Polling<Q>, e: Event<Q>)
    requires Consistent(p)
    ensures Consistent(Step(p, e))
    ensures p.tickers <= Step(p, e).tickers
  {
  }

  /** While a fetch is running nothing but its end touches it: ticks and added transactions start no other. */
  lemma RunningFetchStays<Q>(p: Polling<Q>, e: Event<Q>)
    requires p.fetch.Running? && !e.FetchEnded?
    ensures Step(p, e).fetch == p.fetch && Step(p, e).expected == p.expected && Step(p, e).cache == p.cache
    ensures Step(p, e).tickers == p.tickers + (if e.TransactionsAdded? then e.tickers else {})
  {
  }

  /** The gate counts, but what it lets through is exactly the batches that answer every ticker asked for. */
  lemma AcceptsExactlyCompleteBatches<Q>(p: Polling<Q>)
    requires Consistent(p) && p.fetch.Ready?
    ensures AcceptedBy(p, FinishedDelivered).Some? <==> p.fetch.result.Keys == p.fetch.snapshot
  {
    if |p.fetch.result| == p.expected {
      Sets.SubsetOfSameSize(p.fetch.result.Keys, p.fetch.snapshot);
    }
  }

  /** So merging replaces: an accepted batch covers every ticker in the cache. */
  lemma AcceptedReplaces<Q>(p: Polling<Q>, e: Event<Q>)
    requires Consistent(p)
    ensures Step(p, e).cache == (if AcceptedBy(p, e).Some? then AcceptedBy(p, e).value else p.cache)
    ensures p.cache.Keys <= Step(p, e).cache.Keys
  {
    if AcceptedBy(p, e).Some? {
      AcceptsExactlyCompleteBatches(p);
      assert p.cache + p.fetch.result == p.fetch.result;
    }
  }

  /**
   * Over every interleaving of ticks, added transactions and fetches, the cache is the last accepted
   * batch, in keys and values, although each update only merges; and no ticker ever leaves it.
   */
  lemma {:induction false} CacheIsLastAccepted<Q>(p: Polling<Q>, events: seq<Event<Q>>)
    requires Consistent(p)
    ensures Consistent(Run(p, events))
    ensures Run(p, events).cache == LastAccepted(p, events, p.cache)
    ensures p.cache.Keys <= Run(p, events).cache.Keys
    decreases |events|
  {
    if events != [] {
      StepKeepsConsistent(p, events[0]);
      AcceptedReplaces(p, events[0]);
      CacheIsLastAccepted(Step(p, events[0]), events[1..]);
    }
  }

  lemma CacheFromTheStart<Q>(tickers: set<string>, events: seq<Event<Q>>)
    ensures Run(Started(tickers), events).cache == LastAccepted(Started(tickers), events, map[])
  {
    var p: Polling<Q> := Started(tickers);
    assert Consistent(p) && p.cache == map[];
    CacheIsLastAccepted(p, events);
  }

  /** A fetch that runs undisturbed to its report updates the cache exactly when the feed knows every ticker. */
  lemma FullFetchUpdatesExactlyWhen<Q>(p: Polling<Q>, answers: map<string, Q>)
    requires Consistent(p) && !p.fetch.Running? && p.tickers != {}
    ensures var r := Run(p, [TimerTicked, FetchEnded(answers), FinishedDelivered]);
      r.cache == if p.tickers <= answers.Keys then Batch(p.tickers, answers) else p.cache
  {
    var p1 := Step(p, TimerTicked);
    var p2 := Step(p1, FetchEnded(answers));
    RunThree(p, TimerTicked, FetchEnded(answers), FinishedDelivered);
    StepKeepsConsistent(p, TimerTicked);
    StepKeepsConsistent(p1, FetchEnded(answers));
    AcceptsExactlyCompleteBatches(p2);
    AcceptedReplaces(p2, FinishedDelivered);
    assert Batch(p.tickers, answers).Keys == p.tickers <==> p.tickers <= answers.Keys;
  }

  lemma RunThree<Q>(p: Polling<Q>, a: Event<Q>, b: Event<Q>, c: Event<Q>)
    ensures Run(p, [a, b, c]) == Step(Step(Step(p, a), b), c)
  {
    var p1 := Step(p, a);
    assert [a, b, c][1..] == [b, c] && [b, c][1..] == [c] && [c][1..] == [];
    assert Run(p, [a, b, c]) == Run(p1, [b, c]);
    assert Run(p1, [b, c]) == Run(Step(p1, b), [c]);
    assert Run(Step(p1, b), [c]) == Run(Step(Step(p1, b), c), []);
  }

  // ------------------------------------------------------------------------ the objects

  class PriceCache<Q> {
    var quotes: map<string, Q>

    constructor ()
      ensures quotes == map[]
    {
      quotes := map[];
    }

    /** Insert or replace quote by quote, in any order. */
    method Update(batch: map<string, Q>)
      modifies this
      ensures quotes == old(quotes) + batch
    {
      var left := batch.Keys;
      while left != {}
        invariant left <= batch.Keys
        invariant quotes == old(quotes) + (batch - left)
        decreases left
      {
        var symbol :| symbol in left;
        quotes := quotes[symbol := batch[symbol]];
        left := left - {symbol};
      }
      assert batch - left == batch;
    }
  }

  /** Ask the feed symbol by symbol, leaving out those it cannot answer. */
  method FetchBatch<Q>(symbols: set<string>, answers: map<string, Q>) returns (results: map<string, Q>)
    ensures results == Batch(symbols, answers)
  {
    results := map[];
    var left := symbols;
    while left != {}
      invariant left <= symbols
      invariant results == Batch(symbols - left, answers)
      decreases left
    {
      var symbol :| symbol in left;
      if symbol in answers {
        results := results[symbol := answers[symbol]];
      }
      left := left - {symbol};
    }
    assert symbols - left == symbols;
  }

  class PositionController<Q> {
    var tickers: set<string>
    var watched: Fetch<Q>
    var expectedSymbolCount: nat
    const cache: PriceCache<Q>

    constructor (tickers: set<string>, cache: PriceCache<Q>)
      requires cache.quotes == map[]
      ensures this.cache == cache && State() == Started(tickers)
    {
      this.tickers, watched, expectedSymbolCount := tickers, Idle, 0;
      this.cache := cache;
      new;
      FetchPrices();
    }

    ghost function State(): Polling<Q>
      reads this, cache
    {
      Polling(tickers, watched, expectedSymbolCount, cache.quotes)
    }

    method FetchPrices()
      modifies this
      ensures State() == AfterFetchPrices(old(State()))
    {
      if watched.Running? {
        return;
      }
      if tickers == {} {
        return;
      }
      expectedSymbolCount := |tickers|;
      watched := Running(tickers);
    }

    method OnPricesFetched()
      requires watched.Ready?
      modifies this, cache
      ensures State() == AfterPricesFetched(old(State()))
    {
      var result := watched.result;
      watched := Idle;
      if |result| == expectedSymbolCount {
        cache.Update(result);
      }
    }

    /** The subscription to added transactions: collect their tickers one by one, then fetch. */
    method OnTransactionsAdded(added: set<string>)
      modifies this
      ensures State() == Step(old(State()), TransactionsAdded(added))
    {
      var left := added;
      while left != {}
        invariant left <= added
        invariant tickers == old(tickers) + (added - left)
        invariant watched == old(watched) && expectedSymbolCount == old(expectedSymbolCount)
        invariant cache.quotes == old(cache.quotes)
        decreases left
      {
        var ticker :| ticker in left;
        tickers := tickers + {ticker};
        left := left - {ticker};
      }
      assert tickers == old(tickers) + added;
      FetchPrices();
    }
  }
}
