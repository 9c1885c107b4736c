/**
 * Nested Transaction objects over one database connection
 * (src/db/src/db/transaction.cpp, src/db/src/db/database.cpp).
 */
module DbTransactions {

  /**
   * The connection: what is stored for good, what the open transaction sees, whether the engine has
   * a transaction open, and the program's own flag for that.
   */
  datatype Db<T> = Db(committed: T, working: T, open: bool, started: bool)

  // ------------------------------------------------------------------------ the database calls

  /** BEGIN; the engine refuses it inside a transaction, and may refuse it anyway. */
  function Begin<T>(d: Db<T>, accepts: bool): Db<T> {
    if accepts && !d.open then d.(open := true, started := true) else d
  }

  function Commit<T>(d: Db<T>, accepts: bool): Db<T> {
    if accepts && d.open then d.(committed := d.working, open := false, started := false) else d
  }

  function Rollback<T>(d: Db<T>, accepts: bool): Db<T> {
    if accepts && d.open then d.(working := d.committed, open := false, started := false) else d
  }

  /** A statement that takes the tables to new ones; outside a transaction it is stored at once. */
  function Write<T>(d: Db<T>, tables: T): Db<T> {
    d.(working := tables, committed := if d.open then d.committed else tables)
  }

  /** The engine ends its transaction by itself, as it may on a failing statement; the program is not told. */
  function GiveUp<T>(d: Db<T>): Db<T> {
    d.(working := d.committed, open := false)
  }

  // ------------------------------------------------------------------------ the objects

  /** The live objects, outermost first, each with its active flag. */
  datatype State<T> = State(db: Db<T>, live: seq<bool>)

  datatype Event<T> =
    | Opened(accepts: bool)
    | CommitAsked(i: nat, accepts: bool)
    | RollbackAsked(i: nat, accepts: bool)
    | Destroyed(accepts: bool)
    | Wrote(tables: T)
    | GaveUp

  /** One step; an exception of the engine leaves the objects as they are. */
  function Step<T>(s: State<T>, e: Event<T>): State<T> {
    match e
    case Opened(accepts) =>
      if s.db.started then s.(live := s.live + [false])
      else if accepts && !s.db.open then State(Begin(s.db, accepts), s.live + [true])
      else s
    case CommitAsked(i, accepts) =>
      if i < |s.live| && s.live[i] && accepts && s.db.open
      then State(Commit(s.db, accepts), s.live[i := false]) else s
    case RollbackAsked(i, accepts) =>
      if i < |s.live| && s.live[i] && accepts && s.db.open
      then State(Rollback(s.db, accepts), s.live[i := false]) else s
    case Destroyed(accepts) =>
      if s.live == [] then s
      else
        var last := |s.live| - 1;
        State(if s.live[last] then Rollback(s.db, accepts) else s.db, s.live[..last])
    case Wrote(tables) => s.(db := Write(s.db, tables))
    case GaveUp => if s.db.open then s.(db := GiveUp(s.db)) else s
  }

  function Run<T>(s: State<T>, events: seq<Event<T>>): State<T>
    decreases |events|
  {
    if events == [] then s else Run(Step(s, events[0]), events[1..])
  }

  // ------------------------------------------------------------------------ at most one is active

  function ActiveCount(live: seq<bool>): nat {
    if live == [] then 0 else ActiveCount(live[..|live| - 1]) + (if live[|live| - 1] then 1 else 0)
  }

  /** The flag tells the engine's state and whether one live object is active; never two are. */
  predicate OneActive<T(==)>(s: State<T>) {
    && s.db.started == s.db.open
    && ActiveCount(s.live) == (if s.db.started then 1 else 0)
    && (!s.db.open ==> s.db.working == s.db.committed)
  }

  lemma {:induction false} DeactivatedCount(live: seq<bool>, i: nat)
    requires i < |live| && live[i]
    ensures ActiveCount(live[i := false]) == ActiveCount(live) - 1
    decreases |live|
  {
    var last := |live| - 1;
    assert live[i := false][..last] == if i == last then live[..last] else live[..last][i := false];
    if i < last {
      DeactivatedCount(live[..last], i);
    }
  }

  lemma {:induction false} ActiveIsCounted(live: seq<bool>, i: nat)
    requires i < |live| && live[i]
    ensures ActiveCount(live) >= 1
    decreases |live|
  {
    if i < |live| - 1 {
      ActiveIsCounted(live[..|live| - 1], i);
    }
  }

  lemma {:induction false} TwoActiveCount(live: seq<bool>, i: nat, j: nat)
    requires i < j < |live| && live[i] && live[j]
    ensures ActiveCount(live) >= 2
    decreases |live|
  {
    var last := |live| - 1;
    if j < last {
      TwoActiveCount(live[..last], i, j);
    } else {
      ActiveIsCounted(live[..last], i);
    }
  }

  /** The swallowed exception: the last object goes while the engine refuses its ROLLBACK. */
  predicate Strands<T>(s: State<T>, e: Event<T>) {
    e.Destroyed? && !e.accepts && s.live != [] && s.live[|s.live| - 1]
  }

  /** The engine ends a transaction behind the program's back. */
  predicate Abandons<T>(s: State<T>, e: Event<T>) {
    e.GaveUp? && s.db.open
  }

  /**
   * A step keeps the invariant exactly when it does not destroy an active object whose ROLLBACK fails
   * and the engine does not end an open transaction by itself.
   */
  lemma StepKeepsOneActiveExactlyWhen<T>(s: State<T>, e: Event<T>)
    requires OneActive(s)
    ensures OneActive(Step(s, e)) <==> !Strands(s, e) && !Abandons(s, e)
  {
    match e
    case Opened(accepts) =>
    case CommitAsked(i, accepts) =>
      if i < |s.live| && s.live[i] {
        DeactivatedCount(s.live, i);
      }
    case RollbackAsked(i, accepts) =>
      if i < |s.live| && s.live[i] {
        DeactivatedCount(s.live, i);
      }
    case Destroyed(accepts) =>
    case Wrote(tables) =>
    case GaveUp =>
  }

  /**
   * Opening an object always makes one, unless the flag is clear and BEGIN does not succeed; it is
   * active exactly when the flag was clear, and its BEGIN sets flag and transaction.
   */
  lemma OpenedIsActiveExactlyWhen<T>(s: State<T>, accepts: bool)
    requires OneActive(s)
    ensures var s' := Step(s, Opened(accepts));
      && (s' == s <==> !s.db.started && !accepts)
      && (s' != s ==> s'.live == s.live + [!s.db.started] && s'.db == s.db.(open := true, started := true))
  {
  }

  predicate NeverBreaks<T>(s: State<T>, events: seq<Event<T>>)
    decreases |events|
  {
    events == []
    || (!Strands(s, events[0]) && !Abandons(s, events[0]) && NeverBreaks(Step(s, events[0]), events[1..]))
  }

  /** While the engine carries out every ROLLBACK and never gives up, no step of a run breaks it. */
  lemma {:induction false} AcceptingEngineNeverBreaks<T>(s: State<T>, events: seq<Event<T>>)
    requires forall e :: e in events ==> !e.GaveUp? && (e.Destroyed? ==> e.accepts)
    ensures NeverBreaks(s, events)
    decreases |events|
  {
    if events != [] {
      AcceptingEngineNeverBreaks(Step(s, events[0]), events[1..]);
    }
  }

  /** A connection just opened, without objects, has the property. */
  lemma FreshConnection<T>(tables: T)
    ensures OneActive(State(Db(tables, tables, false, false), []))
  {
  }

  lemma {:induction false} RunsKeepOneActive<T>(s: State<T>, events: seq<Event<T>>)
    requires OneActive(s) && NeverBreaks(s, events)
    ensures OneActive(Run(s, events))
    decreases |events|
  {
    if events != [] {
      StepKeepsOneActiveExactlyWhen(s, events[0]);
      RunsKeepOneActive(Step(s, events[0]), events[1..]);
    }
  }

  /** With the flag set, one object is active and it alone; with it clear, none is. */
  lemma OneActiveMeans<T>(s: State<T>)
    requires OneActive(s)
    ensures s.db.started <==> exists i :: 0 <= i < |s.live| && s.live[i]
    ensures forall i, j :: 0 <= i < j < |s.live| ==> !(s.live[i] && s.live[j])
  {
    forall i | 0 <= i < |s.live| && s.live[i]
      ensures s.db.started
    {
      ActiveIsCounted(s.live, i);
    }
    forall i, j | 0 <= i < j < |s.live| && s.live[i] && s.live[j]
      ensures false
    {
      TwoActiveCount(s.live, i, j);
    }
    if s.db.started {
      CountedIsActive(s.live);
    }
  }

  lemma {:induction false} CountedIsActive(live: seq<bool>)
    requires ActiveCount(live) >= 1
    ensures exists i :: 0 <= i < |live| && live[i]
    decreases |live|
  {
    var last := |live| - 1;
    if live[last] {
    } else {
      CountedIsActive(live[..last]);
      var i :| 0 <= i < |live[..last]| && live[..last][i];
      assert live[i];
    }
  }

  // ------------------------------------------------------------------------ what a scope guarantees

  /** The event leaves the object at an index alone: neither its transaction ends nor the object. */
  predicate Spares<T>(s: State<T>, e: Event<T>, k: nat) {
    match e
    case CommitAsked(i, _) => i != k
    case RollbackAsked(i, _) => i != k
    case Destroyed(_) => |s.live| > k + 1
    case GaveUp => false
    case _ => true
  }

  predicate SparesAlong<T>(s: State<T>, events: seq<Event<T>>, k: nat)
    decreases |events|
  {
    events == [] || (Spares(s, events[0], k) && SparesAlong(Step(s, events[0]), events[1..], k))
  }

  /** The object at an index holds the open transaction. */
  predicate Holds<T(==)>(s: State<T>, k: nat) {
    OneActive(s) && k < |s.live| && s.live[k]
  }

  /** What the tables are after all writes of a run, in its own view. */
  function LastWritten<T>(working: T, events: seq<Event<T>>): T
    decreases |events|
  {
    if events == [] then working
    else LastWritten(if events[0].Wrote? then events[0].tables else working, events[1..])
  }

  /** The object whose BEGIN opens the transaction holds it. */
  lemma OpenedHolds<T>(s: State<T>)
    requires OneActive(s) && !s.db.started
    ensures Holds(Step(s, Opened(true)), |s.live|)
  {
  }

  /** Opening, writing and asking other objects to commit or roll back leaves the holder alone. */
  lemma {:induction false} OthersSpare<T>(s: State<T>, events: seq<Event<T>>, k: nat)
    requires forall e :: e in events ==> !e.GaveUp? && !e.Destroyed?
                                         && (e.CommitAsked? || e.RollbackAsked? ==> e.i != k)
    ensures SparesAlong(s, events, k)
    decreases |events|
  {
    if events != [] {
      OthersSpare(Step(s, events[0]), events[1..], k);
    }
  }

  /** So does a nested object, as an insertion uses it: opened, written under, committed and destroyed. */
  lemma NestedObjectSpares<T>(s: State<T>, k: nat, tables: T, opens: bool, commits: bool, rollsBack: bool)
    requires Holds(s, k) && |s.live| == k + 1
    ensures SparesAlong(s, [Opened(opens), Wrote(tables), CommitAsked(k + 1, commits), Destroyed(rollsBack)], k)
  {
    OneActiveMeans(s);
    var s1 := Step(s, Opened(opens));
    var s2 := Step(s1, Wrote(tables));
    var s3 := Step(s2, CommitAsked(k + 1, commits));
    var rest := [Destroyed(rollsBack)];
    assert SparesAlong(s3, rest, k) by {
      assert rest[1..] == [];
    }
    assert SparesAlong(s2, [CommitAsked(k + 1, commits)] + rest, k);
    assert SparesAlong(s1, [Wrote(tables)] + ([CommitAsked(k + 1, commits)] + rest), k);
    assert [Opened(opens), Wrote(tables), CommitAsked(k + 1, commits), Destroyed(rollsBack)]
        == [Opened(opens)] + ([Wrote(tables)] + ([CommitAsked(k + 1, commits)] + rest));
    assert ([Opened(opens)] + ([Wrote(tables)] + ([CommitAsked(k + 1, commits)] + rest)))[1..]
        == [Wrote(tables)] + ([CommitAsked(k + 1, commits)] + rest);
  }

  lemma HolderHoldsOn<T>(s: State<T>, e: Event<T>, k: nat)
    requires Holds(s, k) && Spares(s, e, k)
    ensures Holds(Step(s, e), k)
    ensures Step(s, e).db.committed == s.db.committed
    ensures Step(s, e).db == if e.Wrote? then s.db.(working := e.tables) else s.db
  {
    OneActiveMeans(s);
    StepKeepsOneActiveExactlyWhen(s, e);
  }

  /**
   * While one object holds the transaction, whatever else is opened, committed, rolled back,
   * destroyed or written, nothing is stored for good and no other object reaches the engine.
   */
  lemma {:induction false} ScopeHoldsCommitted<T>(s: State<T>, events: seq<Event<T>>, k: nat)
    requires Holds(s, k) && SparesAlong(s, events, k)
    ensures Holds(Run(s, events), k)
    ensures Run(s, events).db.committed == s.db.committed
    ensures Run(s, events).db.working == LastWritten(s.db.working, events)
    decreases |events|
  {
    if events != [] {
      HolderHoldsOn(s, events[0], k);
      ScopeHoldsCommitted(Step(s, events[0]), events[1..], k);
    }
  }

  /** So the holder's end decides: a COMMIT stores what was written, a ROLLBACK or destruction none of it. */
  lemma HolderDecides<T>(s: State<T>, events: seq<Event<T>>, k: nat)
    requires Holds(s, k) && SparesAlong(s, events, k)
    ensures var r, written := Run(s, events), LastWritten(s.db.working, events);
      && Step(r, CommitAsked(k, true)).db == Db(written, written, false, false)
      && Step(r, RollbackAsked(k, true)).db == Db(s.db.committed, s.db.committed, false, false)
      && (|r.live| == k + 1 ==>
            Step(r, Destroyed(true)).db == Db(s.db.committed, s.db.committed, false, false))
  {
    ScopeHoldsCommitted(s, events, k);
    OneActiveMeans(Run(s, events));
  }

  // ------------------------------------------------------------------------ when the flag is wrong

  /** The flag is set but no live object is active. */
  predicate Stranded<T>(s: State<T>) {
    s.db.started && ActiveCount(s.live) == 0
  }

  /** A destructor that swallows a refused ROLLBACK leaves the flag set, and the transaction open. */
  lemma StrandsLeavesStranded<T>(s: State<T>, e: Event<T>)
    requires OneActive(s) && Strands(s, e)
    ensures Stranded(Step(s, e)) && Step(s, e).db.open
  {
    var last := |s.live| - 1;
    assert ActiveCount(s.live) == ActiveCount(s.live[..last]) + 1;
    ActiveIsCounted(s.live, last);
  }

  /**
   * When the engine ends the transaction of an object by itself, writing on in its scope stores each
   * write at once, the object can neither commit nor roll back, and its destruction leaves the flag set.
   */
  lemma AbandonedScope<T>(s: State<T>, k: nat, t: T, accepts: bool)
    requires Holds(s, k)
    ensures var a := Step(s, GaveUp);
      && a.db == Db(s.db.committed, s.db.committed, false, true)
      && Step(a, Wrote(t)).db.committed == t
      && Step(a, CommitAsked(k, accepts)) == a && Step(a, RollbackAsked(k, accepts)) == a
      && (|s.live| == k + 1 ==> Stranded(Step(a, Destroyed(accepts))))
  {
    OneActiveMeans(s);
    if |s.live| == k + 1 {
      ActiveIsCounted(s.live, k);
    }
  }

  /** What is stored for good when each write is stored at once, from when the engine has no transaction open. */
  function StoredFrom<T>(committed: T, open: bool, events: seq<Event<T>>): T
    decreases |events|
  {
    if events == [] then committed
    else
      match events[0]
      case Wrote(tables) => StoredFrom(if open then committed else tables, open, events[1..])
      case GaveUp => StoredFrom(committed, false, events[1..])
      case _ => StoredFrom(committed, open, events[1..])
  }

  lemma StrandedStep<T>(s: State<T>, e: Event<T>)
    requires Stranded(s)
    ensures Stranded(Step(s, e))
    ensures Step(s, e).db.open == (s.db.open && !e.GaveUp?)
    ensures Step(s, e).db.committed == if e.Wrote? && !s.db.open then e.tables else s.db.committed
  {
    forall i | 0 <= i < |s.live| && s.live[i]
      ensures false
    {
      ActiveIsCounted(s.live, i);
    }
  }

  /**
   * With the flag set and no object active no later object ever becomes active, whatever the engine
   * would accept by then; what a run stores is exactly what it writes after the engine's own
   * transaction has ended, each write by itself.
   */
  lemma {:induction false} StrandedStores<T>(s: State<T>, events: seq<Event<T>>)
    requires Stranded(s)
    ensures Stranded(Run(s, events))
    ensures Run(s, events).db.committed == StoredFrom(s.db.committed, s.db.open, events)
    decreases |events|
  {
    if events != [] {
      StrandedStep(s, events[0]);
      StrandedStores(Step(s, events[0]), events[1..]);
    }
  }

  lemma {:induction false} NothingStoredWhileOpen<T>(committed: T, events: seq<Event<T>>)
    requires forall e :: e in events ==> !e.GaveUp?
    ensures StoredFrom(committed, true, events) == committed
    decreases |events|
  {
    if events != [] {
      NothingStoredWhileOpen(committed, events[1..]);
    }
  }

  /** So after a refused ROLLBACK nothing is stored again for as long as the engine keeps its transaction. */
  lemma StrandedStoresNothing<T>(s: State<T>, e: Event<T>, events: seq<Event<T>>)
    requires OneActive(s) && Strands(s, e)
    requires forall later :: later in events ==> !later.GaveUp?
    ensures Stranded(Run(Step(s, e), events)) && Run(Step(s, e), events).db.committed == s.db.committed
  {
    StrandsLeavesStranded(s, e);
    StrandedStores(Step(s, e), events);
    NothingStoredWhileOpen(s.db.committed, events);
  }
}
