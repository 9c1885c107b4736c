/** What every store of entries shares (src/store/src/store/base/base_store.tpp). */
module BaseStores {

  datatype EntryState = Clean | New | Modified | Deleted

  datatype Entry<T> = Entry(value: T, state: EntryState)

  /** From temporary ids to committed ones. */
  type Remap = map<int, int>

  /** Temporary ids count down from -2; -1 is reserved for invalid ids, rows count up from 1. */
  predicate IsTemporary(id: int) {
    id <= -2
  }

  /** Temporary are the ids that a sequence counting down from -2 reaches; -1 and rows are not. */
  lemma TemporaryIds(n: nat)
    ensures IsTemporary(-2 - n) && !IsTemporary(n - 1)
  {
  }

  predicate Dirty<T>(es: seq<Entry<T>>) {
    exists i :: 0 <= i < |es| && es[i].state != Clean
  }

  ghost predicate NewOrClean<T>(es: seq<Entry<T>>) {
    forall i :: 0 <= i < |es| ==> es[i].state == New || es[i].state == Clean
  }

  /** What an operation of a store comes to: a value, or the exception it throws. */
  datatype Outcome<+T> = Done(value: T) | NotYetImplemented | AlreadyCommitted | CannotCombine

  /** The outcome without its value. */
  function Kind<T>(o: Outcome<T>): Outcome<()> {
    match o
    case Done(_) => Done(())
    case NotYetImplemented => NotYetImplemented
    case AlreadyCommitted => AlreadyCommitted
    case CannotCombine => CannotCombine
  }

  // ------------------------------------------------------------------------ searching

  /** The first entry with an id; the number of entries if there is none. */
  method FindEntry<T>(entries: seq<Entry<T>>, id: int, idOf: T -> int) returns (at: nat)
    ensures at <= |entries|
    ensures at < |entries| ==> idOf(entries[at].value) == id
    ensures forall k :: 0 <= k < at ==> idOf(entries[k].value) != id
  {
    at := 0;
    while at < |entries| && idOf(entries[at].value) != id
      invariant at <= |entries|
      invariant forall k :: 0 <= k < at ==> idOf(entries[k].value) != id
    {
      at := at + 1;
    }
  }

  method IsDirty<T>(entries: seq<Entry<T>>) returns (dirty: bool)
    ensures dirty == Dirty(entries)
  {
    for i := 0 to |entries|
      invariant forall k :: 0 <= k < i ==> entries[k].state == Clean
    {
      if entries[i].state != Clean {
        return true;
      }
    }
    return false;
  }

  /** No other entry has the id of a new entry from the given index on; those ids are temporary. */
  ghost predicate Findable<T>(es: seq<Entry<T>>, from: nat, idOf: T -> int) {
    && (forall j :: from <= j < |es| && es[j].state == New ==> IsTemporary(idOf(es[j].value)))
    && (forall j, k :: from <= j < |es| && es[j].state == New && 0 <= k < |es| && k != j ==>
          idOf(es[k].value) != idOf(es[j].value))
  }

  // ------------------------------------------------------------------------ committing entry by entry

  /** What a commit leaves: the entries, the tables, and the map from temporary instrument ids. */
  datatype CommitDone<T, D> = CommitDone(entries: seq<Entry<T>>, db: D, remap: Remap)

  /** A new entry is inserted, and clean from then on; `insert` gives it its row ids. */
  function CommittedEntry<T, D>(e: Entry<T>, db: D, insert: (T, D) -> (T, D)): Entry<T> {
    if e.state == New then Entry(insert(e.value, db).0, Clean) else e
  }

  function DbAfter<T, D>(e: Entry<T>, db: D, insert: (T, D) -> (T, D)): D {
    if e.state == New then insert(e.value, db).1 else db
  }

  /** A new entry whose instrument id changes gets a line in the map. */
  function RemapAfter<T, D>(e: Entry<T>, db: D, remap: Remap, insert: (T, D) -> (T, D),
                            instrumentId: T -> int): Remap
  {
    var before, committed := instrumentId(e.value), instrumentId(CommittedEntry(e, db, insert).value);
    if before != committed then remap[before := committed] else remap
  }

  function After<T, D>(done: seq<Entry<T>>, rest: Outcome<CommitDone<T, D>>): Outcome<CommitDone<T, D>> {
    match rest
    case Done(r) => Done(r.(entries := done + r.entries))
    case other => other
  }

  /** The entries in order; modified and deleted ones are not supported. */
  function CommitEntries<T, D>(es: seq<Entry<T>>, db: D, remap: Remap, insert: (T, D) -> (T, D),
                               instrumentId: T -> int): Outcome<CommitDone<T, D>>
    decreases es
  {
    if es == [] then Done(CommitDone([], db, remap))
    else if es[0].state == Modified || es[0].state == Deleted then NotYetImplemented
    else
      After([CommittedEntry(es[0], db, insert)],
            CommitEntries(es[1..], DbAfter(es[0], db, insert), RemapAfter(es[0], db, remap, insert, instrumentId),
                          insert, instrumentId))
  }

  lemma CommitUnfolds<T, D>(e: Entry<T>, rest: seq<Entry<T>>, db: D, remap: Remap,
                            insert: (T, D) -> (T, D), instrumentId: T -> int)
    requires e.state == New || e.state == Clean
    ensures CommitEntries([e] + rest, db, remap, insert, instrumentId)
         == After([CommittedEntry(e, db, insert)],
                  CommitEntries(rest, DbAfter(e, db, insert), RemapAfter(e, db, remap, insert, instrumentId),
                                insert, instrumentId))
  {
    assert ([e] + rest)[1..] == rest;
  }

  // ------------------------------------------------------------------------ committing in a loop

  /** Handling one entry moves the commit on by one. */
  lemma CommitStep<T, D>(es: seq<Entry<T>>, i: nat, done: seq<Entry<T>>, db: D, remap: Remap,
                         insert: (T, D) -> (T, D), instrumentId: T -> int)
    requires i < |es| && (es[i].state == New || es[i].state == Clean)
    ensures After(done, CommitEntries(es[i..], db, remap, insert, instrumentId))
         == After(done + [CommittedEntry(es[i], db, insert)],
                  CommitEntries(es[i + 1..], DbAfter(es[i], db, insert),
                                RemapAfter(es[i], db, remap, insert, instrumentId), insert, instrumentId))
  {
    assert es[i..] == [es[i]] + es[i + 1..];
    CommitUnfolds(es[i], es[i + 1..], db, remap, insert, instrumentId);
    AfterTwice(done, [CommittedEntry(es[i], db, insert)],
               CommitEntries(es[i + 1..], DbAfter(es[i], db, insert),
                             RemapAfter(es[i], db, remap, insert, instrumentId), insert, instrumentId));
  }

  lemma AfterTwice<T, D>(a: seq<Entry<T>>, b: seq<Entry<T>>, rest: Outcome<CommitDone<T, D>>)
    ensures After(a, After(b, rest)) == After(a + b, rest)
  {
    if rest.Done? {
      assert a + (b + rest.value.entries) == (a + b) + rest.value.entries;
    }
  }

  lemma CommitStarts<T, D>(es: seq<Entry<T>>, all: Outcome<CommitDone<T, D>>)
    ensures After(es[..0], all) == all && es[0..] == es
  {
    if all.Done? {
      assert es[..0] + all.value.entries == all.value.entries;
    }
  }

  lemma CommitEnds<T, D>(es: seq<Entry<T>>, now: seq<Entry<T>>, db: D, remap: Remap,
                         insert: (T, D) -> (T, D), instrumentId: T -> int)
    requires |now| == |es|
    ensures After(now[..|now|], CommitEntries(es[|now|..], db, remap, insert, instrumentId))
         == Done(CommitDone(now, db, remap))
  {
    assert es[|now|..] == [] && now[..|now|] == now && now + [] == now;
  }

  /** The entries from an index on are still as they were, and can be found by their ids. */
  ghost predicate Reached<T>(es: seq<Entry<T>>, i: nat, now: seq<Entry<T>>, idOf: T -> int) {
    && i <= |now| == |es|
    && (forall k :: i <= k < |es| ==> now[k] == es[k])
    && Findable(now, i, idOf)
  }

  lemma ReachedStep<T>(es: seq<Entry<T>>, i: nat, now: seq<Entry<T>>, c: Entry<T>, idOf: T -> int)
    requires i < |es| && Reached(es, i, now, idOf)
    requires es[i].state == New ==> !IsTemporary(idOf(c.value))
    requires es[i].state != New ==> c == es[i]
    ensures Reached(es, i + 1, now[i := c], idOf)
    ensures now[i := c][..i + 1] == now[..i] + [c]
    ensures es[i].state != New ==> now[i := c] == now
  {
  }
}
