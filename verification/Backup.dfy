/** Timestamped database backups with tiered retention (src/db/src/db/backup_manager.cpp). */
module Backup {
  import opened Options
  import opened Sets

  /** A (year, week) or (year, month) pair, ordered as std::pair orders it. */
  datatype Key = Key(year: int, part: nat)

  predicate Less(a: Key, b: Key) {
    a.year < b.year || (a.year == b.year && a.part < b.part)
  }

  /** What the timestamp in a file name says: a moment, its calendar week and its calendar month. */
  datatype Stamp = Stamp(time: int, week: Key, month: Key)

  /** A file of the backup folder; files whose name holds no timestamp have no stamp. */
  datatype File = File(name: string, stamp: Option<Stamp>)

  datatype Policy = Policy(recentCount: nat, weeklyCount: nat)

  predicate Distinct(s: seq<File>) {
    forall i, j :: 0 <= i < j < |s| ==> s[i] != s[j]
  }

  /** Where the loops over the non-recent files start. */
  function RecentEnd(s: seq<File>, p: Policy): (r: nat)
    ensures r <= |s|
  {
    if p.recentCount <= |s| then p.recentCount else |s|
  }

  /** A stamped file beyond the recent ones. */
  predicate Older(s: seq<File>, p: Policy, i: int) {
    p.recentCount <= i < |s| && s[i].stamp.Some?
  }

  function Week(f: File): Key
    requires f.stamp.Some?
  {
    f.stamp.value.week
  }

  function Month(f: File): Key
    requires f.stamp.Some?
  {
    f.stamp.value.month
  }

  /** The calendar weeks of the non-recent files. */
  function Weeks(s: seq<File>, p: Policy): set<Key> {
    set i | p.recentCount <= i < |s| && s[i].stamp.Some? :: Week(s[i])
  }

  function Months(s: seq<File>, p: Policy): set<Key> {
    set i | p.recentCount <= i < |s| && s[i].stamp.Some? :: Month(s[i])
  }

  function Below(keys: set<Key>, key: Key): set<Key> {
    set k | k in keys && Less(k, key)
  }

  function Above(keys: set<Key>, key: Key): set<Key> {
    set k | k in keys && Less(key, k)
  }

  /** The newest non-recent file of its week. */
  ghost predicate NewestOfWeek(s: seq<File>, p: Policy, i: int) {
    Older(s, p, i) && forall j :: Older(s, p, j) && j < i ==> Week(s[j]) != Week(s[i])
  }

  /** Kept by the weekly tier: the newest of its week, one of the least `weeklyCount` weeks. */
  ghost predicate Weekly(s: seq<File>, p: Policy, i: int) {
    NewestOfWeek(s, p, i) && |Below(Weeks(s, p), Week(s[i]))| < p.weeklyCount
  }

  /** Kept by the monthly tier: the newest of its month among those the weekly tier passes over. */
  ghost predicate Monthly(s: seq<File>, p: Policy, i: int) {
    && Older(s, p, i) && !Weekly(s, p, i)
    && forall j :: Older(s, p, j) && j < i && !Weekly(s, p, j) ==> Month(s[j]) != Month(s[i])
  }

  ghost predicate Kept(s: seq<File>, p: Policy, i: int) {
    (0 <= i < |s| && i < p.recentCount) || Weekly(s, p, i) || Monthly(s, p, i)
  }

  /** The files a pruning run has deleted when it reaches position n of the listing. */
  ghost function PrunedBefore(s: seq<File>, p: Policy, n: nat): set<File>
    requires n <= |s|
  {
    set i | 0 <= i < n && !Kept(s, p, i) :: s[i]
  }

  /** The files a pruning run deletes. */
  ghost function Pruned(s: seq<File>, p: Policy): set<File> {
    PrunedBefore(s, p, |s|)
  }

  lemma OthersArePruned(s: seq<File>, p: Policy, keep: set<File>, n: nat)
    requires n <= |s| && forall i :: 0 <= i < |s| ==> (s[i] in keep <==> Kept(s, p, i))
    ensures PrunedBefore(s, p, n) == set i | 0 <= i < n && s[i] !in keep :: s[i]
  {
  }

  /** No pruning, complete or not, removes one of the first `recentCount` files. */
  lemma RecentStay(s: seq<File>, p: Policy, n: nat)
    requires Distinct(s) && n <= |s|
    ensures forall i :: 0 <= i < |s| && i < p.recentCount ==> Kept(s, p, i) && s[i] !in PrunedBefore(s, p, n)
  {
    forall i | 0 <= i < |s| && i < p.recentCount
      ensures s[i] !in PrunedBefore(s, p, n)
    {
      if s[i] in PrunedBefore(s, p, n) {
        var j :| 0 <= j < n && !Kept(s, p, j) && s[j] == s[i];
        SamePlace(s, i, j);
      }
    }
  }

  // ------------------------------------------------------------------------ key arithmetic

  lemma {:induction false} LeastExists(keys: set<Key>) returns (least: Key)
    requires keys != {}
    ensures least in keys && forall k :: k in keys ==> !Less(k, least)
  {
    var x :| x in keys;
    if keys == {x} {
      return x;
    }
    var y := LeastExists(keys - {x});
    least := if Less(x, y) then x else y;
    assert forall k :: k in keys ==> k == x || k in keys - {x};
  }

  lemma {:induction false} GreatestExists(keys: set<Key>) returns (greatest: Key)
    requires keys != {}
    ensures greatest in keys && forall k :: k in keys ==> !Less(greatest, k)
  {
    var x :| x in keys;
    if keys == {x} {
      return x;
    }
    var y := GreatestExists(keys - {x});
    greatest := if Less(y, x) then x else y;
    assert forall k :: k in keys ==> k == x || k in keys - {x};
  }

  /** At most n keys have fewer than n keys below them. */
  lemma FewLeastKeys(keys: set<Key>, n: nat)
    ensures |Lowest(keys, n)| <= n
  {
    var low := Lowest(keys, n);
    if low != {} {
      var top := GreatestExists(low);
      forall k | k in low - {top}
        ensures k in Below(keys, top)
      {
        assert !Less(top, k);
      }
      SubsetSize(low - {top}, Below(keys, top));
    }
  }

  /** The keys with fewer than n keys below them. */
  function Lowest(keys: set<Key>, n: nat): set<Key> {
    set k | k in keys && |Below(keys, k)| < n
  }

  function FilesOf(m: map<Key, File>, keys: set<Key>): set<File>
    requires keys <= m.Keys
  {
    set k | k in keys :: m[k]
  }

  lemma FilesOfAdd(m: map<Key, File>, keys: set<Key>, key: Key)
    requires keys + {key} <= m.Keys
    ensures FilesOf(m, keys + {key}) == FilesOf(m, keys) + {m[key]}
  {
  }

  /** `done` are the least keys, as many as the walk has passed. */
  ghost predicate Passed(keys: set<Key>, done: set<Key>, n: nat) {
    && done <= keys
    && (forall a, b :: a in done && b in keys - done ==> Less(a, b))
    && (forall k :: k in done ==> |Below(keys, k)| < n)
  }

  lemma PassedEnough(keys: set<Key>, done: set<Key>, n: nat)
    requires Passed(keys, done, n) && |done| <= n
    requires done != keys ==> |done| == n
    ensures done == Lowest(keys, n)
  {
    forall k | k in keys - done
      ensures |Below(keys, k)| >= n
    {
      SubsetSize(done, Below(keys, k));
    }
  }

  lemma PassNext(keys: set<Key>, done: set<Key>, key: Key, n: nat)
    requires Passed(keys, done, n) && |done| < n
    requires key in keys - done && forall k :: k in keys - done ==> !Less(k, key)
    ensures Passed(keys, done + {key}, n)
  {
    assert Below(keys, key) == done;
  }

  /** A month found so far, up to position i, is mapped to the file that the monthly tier keeps for it. */
  ghost predicate MonthFound(m: map<Key, File>, s: seq<File>, p: Policy, i: int, k: Key)
    requires k in m
  {
    exists j :: Monthly(s, p, j) && j < i && Month(s[j]) == k && m[k] == s[j]
  }

  /** Months found so far, up to position i, with the file each one keeps. */
  ghost predicate MonthsUpTo(m: map<Key, File>, s: seq<File>, p: Policy, i: int) {
    && NoMonthMissed(m, s, p, i)
    && (forall k :: k in m ==> MonthFound(m, s, p, i, k))
  }

  ghost predicate NoMonthMissed(m: map<Key, File>, s: seq<File>, p: Policy, i: int) {
    forall j :: Older(s, p, j) && j < i && !Weekly(s, p, j) ==> Month(s[j]) in m
  }

  lemma NewMonthFound(m: map<Key, File>, s: seq<File>, p: Policy, i: int)
    requires Monthly(s, p, i) && Month(s[i]) in m && m[Month(s[i])] == s[i]
    ensures MonthFound(m, s, p, i + 1, Month(s[i]))
  {
  }

  lemma FirstOfMonth(m: map<Key, File>, s: seq<File>, p: Policy, i: int)
    requires MonthsUpTo(m, s, p, i) && Older(s, p, i) && !Weekly(s, p, i) && Month(s[i]) !in m
    ensures Monthly(s, p, i)
    ensures MonthsUpTo(m[Month(s[i]) := s[i]], s, p, i + 1)
  {
    var m' := m[Month(s[i]) := s[i]];
    forall k | k in m'
      ensures MonthFound(m', s, p, i + 1, k)
    {
      if k == Month(s[i]) {
        NewMonthFound(m', s, p, i);
      }
    }
  }

  lemma NotFirstOfMonth(m: map<Key, File>, s: seq<File>, p: Policy, i: int)
    requires MonthsUpTo(m, s, p, i)
    requires Older(s, p, i) && !Weekly(s, p, i) ==> Month(s[i]) in m
    ensures MonthsUpTo(m, s, p, i + 1)
  {
    forall k | k in m
      ensures MonthFound(m, s, p, i + 1, k)
    {
    }
  }

  lemma AllMonthsFound(m: map<Key, File>, s: seq<File>, p: Policy)
    requires MonthsUpTo(m, s, p, |s|)
    ensures forall f :: f in m.Values <==> exists i :: Monthly(s, p, i) && s[i] == f
  {
    forall i | Monthly(s, p, i)
      ensures s[i] in m.Values
    {
      var k := Month(s[i]);
      assert MonthFound(m, s, p, |s|, k);
      var j :| Monthly(s, p, j) && Month(s[j]) == k && m[k] == s[j];
      assert i == j;
    }
    forall f | f in m.Values
      ensures exists i :: Monthly(s, p, i) && s[i] == f
    {
      var k :| k in m && m[k] == f;
      assert MonthFound(m, s, p, |s|, k);
    }
  }

  lemma SamePlace(s: seq<File>, i: int, j: int)
    requires Distinct(s) && 0 <= i < |s| && 0 <= j < |s| && s[i] == s[j]
    ensures i == j
  {
  }

  function Recent(s: seq<File>, p: Policy): set<File> {
    set j | 0 <= j < |s| && j < p.recentCount :: s[j]
  }

  /** The newest file of every non-recent week. */
  ghost predicate HoldsNewestPerWeek(weekMap: map<Key, File>, s: seq<File>, p: Policy) {
    && weekMap.Keys == Weeks(s, p)
    && (forall i :: NewestOfWeek(s, p, i) ==> Week(s[i]) in weekMap && weekMap[Week(s[i])] == s[i])
    && (forall k :: k in weekMap ==>
          exists i :: NewestOfWeek(s, p, i) && Week(s[i]) == k && weekMap[k] == s[i])
  }

  /** Among the non-recent files, the recent and the weekly tier together hold the weekly ones. */
  lemma WeeklyTierHolds(s: seq<File>, p: Policy, weekMap: map<Key, File>, recent: set<File>)
    requires Distinct(s) && HoldsNewestPerWeek(weekMap, s, p)
    requires recent == Recent(s, p)
    ensures forall i :: Older(s, p, i) ==>
      (s[i] in recent + FilesOf(weekMap, Lowest(weekMap.Keys, p.weeklyCount)) <==> Weekly(s, p, i))
  {
    var low := Lowest(weekMap.Keys, p.weeklyCount);
    forall i | Older(s, p, i)
      ensures s[i] in recent + FilesOf(weekMap, low) <==> Weekly(s, p, i)
    {
      if s[i] in FilesOf(weekMap, low) {
        var k :| k in low && weekMap[k] == s[i];
        var j :| NewestOfWeek(s, p, j) && Week(s[j]) == k && weekMap[k] == s[j];
        SamePlace(s, i, j);
      }
    }
  }

  /** All three tiers together hold exactly the files to keep. */
  lemma TiersHold(s: seq<File>, p: Policy, weekMap: map<Key, File>, recent: set<File>,
                  keep: set<File>, monthly: set<File>)
    requires Distinct(s) && HoldsNewestPerWeek(weekMap, s, p)
    requires recent == Recent(s, p)
    requires keep == recent + FilesOf(weekMap, Lowest(weekMap.Keys, p.weeklyCount))
    requires forall f :: f in monthly <==> exists i :: Monthly(s, p, i) && s[i] == f
    ensures forall i :: 0 <= i < |s| ==> (s[i] in keep + monthly <==> Kept(s, p, i))
  {
    WeeklyTierHolds(s, p, weekMap, recent);
    forall i | 0 <= i < |s|
      ensures s[i] in keep + monthly <==> Kept(s, p, i)
    {
      if s[i] in monthly {
        var j :| Monthly(s, p, j) && s[j] == s[i];
        SamePlace(s, i, j);
      } else if s[i] in keep && i >= RecentEnd(s, p) {
        StampedIfKept(s, p, weekMap, recent, i);
      }
    }
  }

  lemma StampedIfKept(s: seq<File>, p: Policy, weekMap: map<Key, File>, recent: set<File>, i: int)
    requires Distinct(s) && HoldsNewestPerWeek(weekMap, s, p)
    requires recent == Recent(s, p)
    requires RecentEnd(s, p) <= i < |s|
    requires s[i] in recent + FilesOf(weekMap, Lowest(weekMap.Keys, p.weeklyCount))
    ensures Older(s, p, i)
  {
    var k :| k in weekMap && weekMap[k] == s[i];
    var j :| NewestOfWeek(s, p, j) && Week(s[j]) == k && weekMap[k] == s[j];
    SamePlace(s, i, j);
  }

  // ------------------------------------------------------------------------ the pruning loops

  /** The backup folder, and how many removals the file system has refused. */
  class Folder {
    var files: set<File>
    ghost var refusals: nat

    constructor (files: set<File>)
      ensures this.files == files
    {
      this.files := files;
      refusals := 0;
    }

    /** Remove a file; false where the file system refuses and the source throws. */
    method Remove(f: File) returns (ok: bool)
      modifies this
      ensures files == if ok then old(files) - {f} else old(files)
      ensures refusals == old(refusals) + if ok then 0 else 1
    {
      ok := *;
      if ok {
        files := files - {f};
      } else {
        refusals := refusals + 1;
      }
    }

    /** The first file of each week among the non-recent ones. */
    static method NewestPerWeek(s: seq<File>, p: Policy) returns (weekMap: map<Key, File>)
      ensures HoldsNewestPerWeek(weekMap, s, p)
    {
      weekMap := map[];
      ghost var r := RecentEnd(s, p);
      for i := RecentEnd(s, p) to |s|
        invariant forall j :: r <= j < i && s[j].stamp.Some? ==> Week(s[j]) in weekMap
        invariant forall j :: NewestOfWeek(s, p, j) && j < i ==> weekMap[Week(s[j])] == s[j]
        invariant forall k :: k in weekMap ==>
          exists j :: NewestOfWeek(s, p, j) && j < i && Week(s[j]) == k && weekMap[k] == s[j]
      {
        if s[i].stamp.Some? {
          var key := Week(s[i]);
          if key !in weekMap {
            assert NewestOfWeek(s, p, i);
            weekMap := weekMap[key := s[i]];
          }
        }
      }
    }

    /** Walk the weeks in ascending order and keep the files of the first `weeklyCount`. */
    static method KeepWeeks(weekMap: map<Key, File>, weeklyCount: nat) returns (keep: set<File>)
      ensures keep == FilesOf(weekMap, Lowest(weekMap.Keys, weeklyCount))
    {
      keep := {};
      var weeksAdded := 0;
      var remaining := weekMap.Keys;
      ghost var done: set<Key> := {};
      while remaining != {}
        invariant Passed(weekMap.Keys, done, weeklyCount) && remaining == weekMap.Keys - done
        invariant weeksAdded == |done| <= weeklyCount
        invariant keep == FilesOf(weekMap, done)
        decreases |remaining|
      {
        if weeksAdded >= weeklyCount {
          break;
        }
        ghost var l := LeastExists(remaining);
        var key :| key in remaining && forall k :: k in remaining ==> !Less(k, key);
        PassNext(weekMap.Keys, done, key, weeklyCount);
        FilesOfAdd(weekMap, done, key);
        keep := keep + {weekMap[key]};
        weeksAdded := weeksAdded + 1;
        remaining := remaining - {key};
        done := done + {key};
      }
      PassedEnough(weekMap.Keys, done, weeklyCount);
    }

    /** The first file of each month among the non-recent ones not yet kept. */
    static method NewestPerMonth(s: seq<File>, p: Policy, keep: set<File>) returns (monthMap: map<Key, File>)
      requires Distinct(s)
      requires forall i :: Older(s, p, i) ==> (s[i] in keep <==> Weekly(s, p, i))
      ensures forall f :: f in monthMap.Values <==> exists i :: Monthly(s, p, i) && s[i] == f
    {
      monthMap := map[];
      assert MonthsUpTo(monthMap, s, p, RecentEnd(s, p));
      for i := RecentEnd(s, p) to |s|
        invariant MonthsUpTo(monthMap, s, p, i)
      {
        if s[i].stamp.None? || s[i] in keep || Month(s[i]) in monthMap {
          assert s[i].stamp.Some? ==> Older(s, p, i);
          NotFirstOfMonth(monthMap, s, p, i);
          continue;
        }
        assert Older(s, p, i);
        FirstOfMonth(monthMap, s, p, i);
        monthMap := monthMap[Month(s[i]) := s[i]];
      }
      AllMonthsFound(monthMap, s, p);
    }

    /** The recent tier. */
    static method KeepRecent(s: seq<File>, p: Policy) returns (keep: set<File>)
      ensures keep == Recent(s, p)
    {
      keep := {};
      for i := 0 to RecentEnd(s, p)
        invariant keep == set j | 0 <= j < i :: s[j]
      {
        keep := keep + {s[i]};
      }
    }

    /** Delete the listed files that are not kept, in order, up to the first that cannot be removed. */
    method DeleteOthers(s: seq<File>, keep: set<File>) returns (reached: nat)
      modifies this
      ensures reached <= |s| && (reached < |s| ==> s[reached] !in keep)
      ensures files == old(files) - set j | 0 <= j < reached && s[j] !in keep :: s[j]
      ensures refusals == old(refusals) + if reached < |s| then 1 else 0
    {
      reached := 0;
      while reached < |s|
        invariant reached <= |s| && refusals == old(refusals)
        invariant files == old(files) - set j | 0 <= j < reached && s[j] !in keep :: s[j]
      {
        if s[reached] !in keep {
          var ok := Remove(s[reached]);
          if !ok {
            return;
          }
        }
        reached := reached + 1;
      }
    }

    /**
     * Apply the retention policy to a listing: delete what no tier keeps. Returns the position of the
     * file that could not be removed, or the length of the listing.
     */
    method Prune(s: seq<File>, p: Policy) returns (reached: nat)
      requires Distinct(s)
      modifies this
      ensures reached <= |s| && (reached < |s| ==> !Kept(s, p, reached))
      ensures files == old(files) - PrunedBefore(s, p, reached)
      ensures refusals == old(refusals) + if reached < |s| then 1 else 0
      ensures forall i :: 0 <= i < |s| && i < p.recentCount && s[i] in old(files) ==> s[i] in files
    {
      var recent := KeepRecent(s, p);
      var weekMap := NewestPerWeek(s, p);
      var weekly := KeepWeeks(weekMap, p.weeklyCount);
      var keep := recent + weekly;
      WeeklyTierHolds(s, p, weekMap, recent);
      var monthMap := NewestPerMonth(s, p, keep);
      TiersHold(s, p, weekMap, recent, keep, monthMap.Values);
      keep := keep + monthMap.Values;
      reached := DeleteOthers(s, keep);
      OthersArePruned(s, p, keep, reached);
      RecentStay(s, p, reached);
    }
  }
}
