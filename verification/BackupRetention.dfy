/** What backup retention guarantees: idempotence, bounds, and months that never disappear. */
module BackupRetention {
  import opened Options
  import opened Sets
  import opened Backup

  // ------------------------------------------------------------------------ idempotence

  /** The members of `places` from i on, below n, in order. */
  ghost function InOrder(places: set<int>, n: nat, i: nat): seq<int>
    decreases n - i
  {
    if i >= n then []
    else (if i in places then [i] else []) + InOrder(places, n, i + 1)
  }

  /** ks lists exactly the members of `places` between i and n, in increasing order. */
  ghost predicate Lists(ks: seq<int>, places: set<int>, n: nat, i: nat) {
    && (forall k :: 0 <= k < |ks| ==> i <= ks[k] < n)
    && (forall k :: 0 <= k < |ks| ==> ks[k] in places)
    && (forall k, l :: 0 <= k < l < |ks| ==> ks[k] < ks[l])
    && (forall j :: i <= j < n && j in places ==> j in ks)
  }

  lemma ListsSkip(rest: seq<int>, places: set<int>, n: nat, i: nat)
    requires i < n && i !in places && Lists(rest, places, n, i + 1)
    ensures Lists(rest, places, n, i)
  {
  }

  lemma {:induction false} InOrderLists(places: set<int>, n: nat, i: nat)
    ensures Lists(InOrder(places, n, i), places, n, i)
    decreases n - i
  {
    if i < n {
      var rest := InOrder(places, n, i + 1);
      InOrderLists(places, n, i + 1);
      if i in places {
      } else {
        ListsSkip(rest, places, n, i);
        assert [] + rest == rest;
      }
    }
  }

  lemma {:induction false} InOrderStarts(places: set<int>, n: nat, i: nat, k: nat)
    requires i + k < n && forall j :: i <= j <= i + k ==> j in places
    ensures k < |InOrder(places, n, i)| && InOrder(places, n, i)[k] == i + k
    decreases k
  {
    if k > 0 {
      InOrderStarts(places, n, i + 1, k - 1);
    }
  }

  lemma {:induction false} InOrderCounts(places: set<int>, n: nat, i: nat)
    requires forall j :: j in places ==> i <= j < n
    ensures |InOrder(places, n, i)| == |places|
    decreases n - i
  {
    if i < n {
      InOrderCounts(places - {i}, n, i + 1);
      InOrderIgnores(places, n, i + 1, i);
    } else {
      assert places == {};
    }
  }

  lemma {:induction false} InOrderIgnores(places: set<int>, n: nat, i: nat, x: int)
    requires x < i
    ensures InOrder(places - {x}, n, i) == InOrder(places, n, i)
    decreases n - i
  {
    if i < n {
      InOrderIgnores(places, n, i + 1, x);
    }
  }

  /** The positions a pruning run keeps. */
  ghost function KeptSet(s: seq<File>, p: Policy): set<int> {
    set i | 0 <= i < |s| && Kept(s, p, i)
  }

  ghost function KeptPlaces(s: seq<File>, p: Policy): (ks: seq<int>)
    ensures Lists(ks, KeptSet(s, p), |s|, 0)
  {
    InOrderLists(KeptSet(s, p), |s|, 0);
    InOrder(KeptSet(s, p), |s|, 0)
  }

  /** The listing that is left after a pruning run, in the same order. */
  ghost function Survivors(s: seq<File>, p: Policy): (t: seq<File>)
    ensures |t| == |KeptPlaces(s, p)| && forall k :: 0 <= k < |t| ==> t[k] == s[KeptPlaces(s, p)[k]]
  {
    var places := KeptPlaces(s, p);
    seq(|places|, k requires 0 <= k < |places| => s[places[k]])
  }

  /** The recent files come first again, so that the recent tier stays what it was. */
  lemma RecentComeFirst(s: seq<File>, p: Policy)
    ensures RecentKeepPlaces(KeptPlaces(s, p), RecentEnd(s, p), |s|)
  {
    var ks, r := KeptPlaces(s, p), RecentEnd(s, p);
    forall k | 0 <= k < r
      ensures k < |ks| && ks[k] == k
    {
      InOrderStarts(KeptSet(s, p), |s|, 0, k);
    }
    if r > 0 {
      assert ks[r - 1] == r - 1;
    }
    assert |ks| > r ==> 0 <= ks[r] < |s|;
    forall k | r <= k < |ks|
      ensures ks[k] >= r
    {
      if r > 0 {
        assert ks[r - 1] < ks[k];
      }
    }
  }

  /** The first r of the positions are 0 to r - 1, the others lie beyond them. */
  ghost predicate RecentKeepPlaces(ks: seq<int>, r: nat, n: nat) {
    && r <= |ks| && (r == n ==> |ks| == r)
    && (forall k :: 0 <= k < r ==> ks[k] == k)
    && (forall k :: r <= k < |ks| ==> ks[k] >= r)
  }

  /** How the positions of the surviving listing map back to the original one. */
  lemma SurvivorPlaces(s: seq<File>, p: Policy)
    ensures RecentEnd(Survivors(s, p), p) == RecentEnd(s, p)
    ensures RecentKeepPlaces(KeptPlaces(s, p), RecentEnd(s, p), |s|)
  {
    RecentComeFirst(s, p);
  }

  lemma WeeksShrink(s: seq<File>, p: Policy, key: Key)
    ensures |Below(Weeks(Survivors(s, p), p), key)| <= |Below(Weeks(s, p), key)|
  {
    var t, ks := Survivors(s, p), KeptPlaces(s, p);
    SurvivorPlaces(s, p);
    forall w | w in Weeks(t, p)
      ensures w in Weeks(s, p)
    {
      var k :| RecentEnd(t, p) <= k < |t| && t[k].stamp.Some? && Week(t[k]) == w;
      assert s[ks[k]] == t[k];
    }
    SubsetSize(Below(Weeks(t, p), key), Below(Weeks(s, p), key));
  }

  /** What the weekly tier kept, it keeps again. */
  lemma WeeklyStays(s: seq<File>, p: Policy, k: int)
    requires 0 <= k < |Survivors(s, p)| && Weekly(s, p, KeptPlaces(s, p)[k])
    ensures Weekly(Survivors(s, p), p, k)
  {
    var t, ks := Survivors(s, p), KeptPlaces(s, p);
    SurvivorPlaces(s, p);
    forall j | Older(t, p, j) && j < k
      ensures Week(t[j]) != Week(t[k])
    {
      assert Older(s, p, ks[j]) && ks[j] < ks[k];
    }
    WeeksShrink(s, p, Week(t[k]));
  }

  /** What the monthly tier kept is kept again, by the weekly tier or by the monthly one. */
  lemma MonthlyStays(s: seq<File>, p: Policy, k: int)
    requires 0 <= k < |Survivors(s, p)| && Monthly(s, p, KeptPlaces(s, p)[k])
    ensures Kept(Survivors(s, p), p, k)
  {
    var t, ks := Survivors(s, p), KeptPlaces(s, p);
    SurvivorPlaces(s, p);
    if !Weekly(t, p, k) {
      forall j | Older(t, p, j) && j < k && !Weekly(t, p, j)
        ensures Month(t[j]) != Month(t[k])
      {
        if Weekly(s, p, ks[j]) {
          WeeklyStays(s, p, j);
        }
        assert Older(s, p, ks[j]) && ks[j] < ks[k];
      }
      assert Monthly(t, p, k);
    }
  }

  /** Pruning what a pruning run with the same policy left deletes nothing. */
  lemma PruneIsIdempotent(s: seq<File>, p: Policy)
    ensures Pruned(Survivors(s, p), p) == {}
  {
    var t, ks := Survivors(s, p), KeptPlaces(s, p);
    SurvivorPlaces(s, p);
    forall k | 0 <= k < |t|
      ensures Kept(t, p, k)
    {
      if Weekly(s, p, ks[k]) {
        WeeklyStays(s, p, k);
      } else if Monthly(s, p, ks[k]) {
        MonthlyStays(s, p, k);
      }
    }
  }

  /** The survivors are the files of the listing that are not pruned. */
  lemma SurvivorsAreTheRest(s: seq<File>, p: Policy)
    requires Distinct(s)
    ensures forall f :: f in Survivors(s, p) <==> f in s && f !in Pruned(s, p)
    ensures Distinct(Survivors(s, p))
  {
    var t, ks := Survivors(s, p), KeptPlaces(s, p);
    SurvivorPlaces(s, p);
    assert forall i, j :: 0 <= i < |s| && 0 <= j < |s| && s[i] == s[j] ==> i == j;
    forall f | f in s && f !in Pruned(s, p)
      ensures f in t
    {
      var j :| 0 <= j < |s| && s[j] == f;
      assert j in KeptSet(s, p);
      var k :| 0 <= k < |ks| && ks[k] == j;
      assert t[k] == f;
    }
    forall f | f in t
      ensures f in s && f !in Pruned(s, p)
    {
      var k :| 0 <= k < |t| && t[k] == f;
      assert f == s[ks[k]] && Kept(s, p, ks[k]);
    }
  }

  // ------------------------------------------------------------------------ months and bounds

  /** The newest non-recent backup of every month survives. */
  lemma NewestOfMonthSurvives(s: seq<File>, p: Policy, i: int)
    requires Older(s, p, i)
    requires forall j :: Older(s, p, j) && j < i ==> Month(s[j]) != Month(s[i])
    ensures Kept(s, p, i)
  {
  }

  /** The first position at which a month occurs among the non-recent backups. */
  lemma {:induction false} FirstOccurrence(s: seq<File>, p: Policy, i: int) returns (j: int)
    requires Older(s, p, i)
    ensures Older(s, p, j) && j <= i && Month(s[j]) == Month(s[i])
    ensures forall k :: Older(s, p, k) && k < j ==> Month(s[k]) != Month(s[j])
    decreases i
  {
    if k :| Older(s, p, k) && k < i && Month(s[k]) == Month(s[i]) {
      j := FirstOccurrence(s, p, k);
    } else {
      j := i;
    }
  }

  /** Every month that has a backup before a pruning run has one after it. */
  lemma MonthsSurvive(s: seq<File>, p: Policy, i: int)
    requires 0 <= i < |s| && s[i].stamp.Some?
    ensures exists j :: 0 <= j < |s| && Kept(s, p, j) && s[j].stamp.Some?
                 && s[j].stamp.value.month == s[i].stamp.value.month
  {
    if i < RecentEnd(s, p) {
      assert Kept(s, p, i);
    } else {
      var j := FirstOccurrence(s, p, i);
      NewestOfMonthSurvives(s, p, j);
    }
  }

  ghost function WeeklyPlaces(s: seq<File>, p: Policy): set<int> {
    set i | 0 <= i < |s| && Weekly(s, p, i)
  }

  ghost function MonthlyPlaces(s: seq<File>, p: Policy): set<int> {
    set i | 0 <= i < |s| && Monthly(s, p, i)
  }

  /** Places with pairwise different keys are at most as many as the keys. */
  lemma {:induction false} PlacesByKey<T>(places: set<T>, keys: set<Key>, key: T -> Key)
    requires forall i :: i in places ==> key(i) in keys
    requires forall i, j :: i in places && j in places && key(i) == key(j) ==> i == j
    ensures |places| <= |keys|
  {
    if places != {} {
      var i :| i in places;
      PlacesByKey(places - {i}, keys - {key(i)}, key);
    }
  }

  function WeekAt(s: seq<File>, i: int): Key {
    if 0 <= i < |s| && s[i].stamp.Some? then Week(s[i]) else Key(0, 0)
  }

  function MonthAt(s: seq<File>, i: int): Key {
    if 0 <= i < |s| && s[i].stamp.Some? then Month(s[i]) else Key(0, 0)
  }

  lemma WeeklyPlacesAreFew(s: seq<File>, p: Policy)
    ensures |WeeklyPlaces(s, p)| <= p.weeklyCount
  {
    PlacesByKey(WeeklyPlaces(s, p), Lowest(Weeks(s, p), p.weeklyCount), i => WeekAt(s, i));
    FewLeastKeys(Weeks(s, p), p.weeklyCount);
  }

  lemma MonthlyPlacesAreFew(s: seq<File>, p: Policy)
    ensures |MonthlyPlaces(s, p)| <= |Months(s, p)|
  {
    PlacesByKey(MonthlyPlaces(s, p), Months(s, p), i => MonthAt(s, i));
  }

  lemma KeptAreTheTiers(s: seq<File>, p: Policy, recent: set<int>)
    requires forall i :: i in recent <==> 0 <= i < RecentEnd(s, p)
    ensures KeptSet(s, p) == recent + WeeklyPlaces(s, p) + MonthlyPlaces(s, p)
  {
  }

  /** No more files survive than the tiers allow: recent, weekly, and one per non-recent month. */
  lemma SurvivorsAreBounded(s: seq<File>, p: Policy)
    ensures |Survivors(s, p)| <= p.recentCount + p.weeklyCount + |Months(s, p)|
  {
    InOrderCounts(KeptSet(s, p), |s|, 0);
    WeeklyPlacesAreFew(s, p);
    MonthlyPlacesAreFew(s, p);
    var recent := Upto(RecentEnd(s, p));
    KeptAreTheTiers(s, p, recent);
    UnionSize(recent, WeeklyPlaces(s, p), MonthlyPlaces(s, p));
  }

  // ------------------------------------------------------------------------ the weekly tier

  /** The newest backup of one of the `weeklyCount` latest weeks, as the policy's description says. */
  ghost predicate WeeklyAsDescribed(s: seq<File>, p: Policy, i: int) {
    NewestOfWeek(s, p, i) && |Above(Weeks(s, p), Week(s[i]))| < p.weeklyCount
  }

  /**
   * The weekly tier keeps the earliest weeks, not the latest: it agrees with its description
   * exactly when it has room for every non-recent week, or for none.
   */
  lemma WeeklyTierKeepsLatestWeeksExactlyWhen(s: seq<File>, p: Policy)
    ensures (forall i :: Weekly(s, p, i) <==> WeeklyAsDescribed(s, p, i))
       <==> |Weeks(s, p)| <= p.weeklyCount || p.weeklyCount == 0
  {
    var weeks := Weeks(s, p);
    if |weeks| <= p.weeklyCount {
      forall i | NewestOfWeek(s, p, i)
        ensures |Below(weeks, Week(s[i]))| < p.weeklyCount && |Above(weeks, Week(s[i]))| < p.weeklyCount
      {
        SubsetSize(Below(weeks, Week(s[i])), weeks - {Week(s[i])});
        SubsetSize(Above(weeks, Week(s[i])), weeks - {Week(s[i])});
      }
    } else if p.weeklyCount > 0 {
      var least := LeastExists(weeks);
      var i :| RecentEnd(s, p) <= i < |s| && s[i].stamp.Some? && Week(s[i]) == least;
      var j := FirstOfWeek(s, p, i);
      assert Below(weeks, least) == {};
      assert Above(weeks, least) == weeks - {least};
      assert Weekly(s, p, j) && !WeeklyAsDescribed(s, p, j);
    }
  }

  /** The other weeks further down the listing. */
  function WeeksAfter(s: seq<File>, i: int): set<Key>
    requires 0 <= i < |s| && s[i].stamp.Some?
  {
    set j | i < j < |s| && s[j].stamp.Some? && s[j].stamp.value.week != s[i].stamp.value.week
      :: s[j].stamp.value.week
  }

  /**
   * In a listing along which the calendar weeks never grow, as newest first they do not, the weekly
   * tier keeps the newest file of each of the last `weeklyCount` weeks of the listing.
   */
  lemma WeeklyTierKeepsLastOfListing(s: seq<File>, p: Policy, i: int)
    requires forall j, k :: 0 <= j < k < |s| && s[j].stamp.Some? && s[k].stamp.Some? ==>
      var newer, older := s[j].stamp.value.week, s[k].stamp.value.week;
      older.year < newer.year || (older.year == newer.year && older.part <= newer.part)
    requires p.recentCount <= i < |s| && s[i].stamp.Some?
    ensures Weekly(s, p, i) <==>
      && |WeeksAfter(s, i)| < p.weeklyCount
      && forall j :: p.recentCount <= j < i && s[j].stamp.Some? ==> s[j].stamp.value.week != s[i].stamp.value.week
  {
    if NewestOfWeek(s, p, i) {
      forall k
        ensures k in Below(Weeks(s, p), Week(s[i])) <==> k in WeeksAfter(s, i)
      {
        if k in Below(Weeks(s, p), Week(s[i])) {
          var j :| p.recentCount <= j < |s| && s[j].stamp.Some? && Week(s[j]) == k;
          assert i < j;
        }
      }
      assert Below(Weeks(s, p), Week(s[i])) == WeeksAfter(s, i);
    }
  }

  lemma {:induction false} FirstOfWeek(s: seq<File>, p: Policy, i: int) returns (j: int)
    requires Older(s, p, i)
    ensures NewestOfWeek(s, p, j) && Week(s[j]) == Week(s[i])
    decreases i
  {
    if k :| Older(s, p, k) && k < i && Week(s[k]) == Week(s[i]) {
      j := FirstOfWeek(s, p, k);
    } else {
      j := i;
    }
  }

  // ------------------------------------------------------------------------ runs of backups

  /** A listing of the stamped files of a folder, newest first; ties may fall either way. */
  ghost predicate IsListing(s: seq<File>, files: set<File>) {
    && Distinct(s)
    && (forall f :: f in s <==> f in files && f.stamp.Some?)
    && (forall i, j :: 0 <= i < j < |s| ==>
          s[i].stamp.Some? && s[j].stamp.Some? && s[i].stamp.value.time >= s[j].stamp.value.time)
  }

  /** One backup: a new file appears, the folder is listed, and the listing is pruned. */
  ghost predicate BackupStep(before: set<File>, added: File, p: Policy, after: set<File>) {
    exists s :: IsListing(s, before + {added}) && after == before + {added} - Pruned(s, p)
  }

  ghost predicate HasMonth(files: set<File>, month: Key) {
    exists f :: f in files && f.stamp.Some? && f.stamp.value.month == month
  }

  /** Deleting only files that a pruning run deletes leaves every month a backup. */
  lemma PartialPruningKeepsMonths(s: seq<File>, files: set<File>, p: Policy, gone: set<File>, month: Key)
    requires IsListing(s, files) && gone <= Pruned(s, p) && HasMonth(files, month)
    ensures HasMonth(files - gone, month)
  {
    var f :| f in files && f.stamp.Some? && f.stamp.value.month == month;
    var i :| 0 <= i < |s| && s[i] == f;
    MonthsSurvive(s, p, i);
    var j :| 0 <= j < |s| && Kept(s, p, j) && s[j].stamp.Some? && s[j].stamp.value.month == month;
    assert forall k :: 0 <= k < |s| && s[k] == s[j] ==> k == j;
    assert s[j] in files - gone;
  }

  lemma StepKeepsMonths(before: set<File>, added: File, p: Policy, after: set<File>, month: Key)
    requires BackupStep(before, added, p, after) && HasMonth(before + {added}, month)
    ensures HasMonth(after, month)
  {
    var s: seq<File> :| IsListing(s, before + {added}) && after == before + {added} - Pruned(s, p);
    PartialPruningKeepsMonths(s, before + {added}, p, Pruned(s, p), month);
  }

  lemma InterruptionKeepsMonths(before: set<File>, added: File, p: Policy, after: set<File>, month: Key)
    requires InterruptedStep(before, added, p, after) && HasMonth(before + {added}, month)
    ensures HasMonth(after, month)
  {
    var s: seq<File>, n: nat :| IsListing(s, before + {added}) && n < |s| && !Kept(s, p, n)
                                && after == before + {added} - PrunedBefore(s, p, n);
    PartialPruningKeepsMonths(s, before + {added}, p, PrunedBefore(s, p, n), month);
  }

  /**
   * How creating a backup ends: not at all while backups are disabled, with an exception before the
   * pruning or in the middle of it, or in full.
   */
  datatype Outcome = Disabled | Failed | Interrupted | Completed

  datatype Attempt = Attempt(added: File, policy: Policy, outcome: Outcome)

  /** A pruning that could not remove some file: those before it are gone, the others stay. */
  ghost predicate InterruptedStep(before: set<File>, added: File, p: Policy, after: set<File>) {
    exists s, n: nat ::
      && IsListing(s, before + {added}) && n < |s| && !Kept(s, p, n)
      && after == before + {added} - PrunedBefore(s, p, n)
  }

  /** An attempt that fails before the pruning may have created its file. */
  ghost predicate AttemptStep(before: set<File>, a: Attempt, after: set<File>) {
    match a.outcome
    case Disabled => after == before
    case Failed => after == before || after == before + {a.added}
    case Interrupted => InterruptedStep(before, a.added, a.policy, after)
    case Completed => BackupStep(before, a.added, a.policy, after)
  }

  /** A run: the folder before and after each attempt. */
  ghost predicate Run(folders: seq<set<File>>, attempts: seq<Attempt>) {
    && |folders| == |attempts| + 1
    && forall n :: 0 <= n < |attempts| ==> AttemptStep(folders[n], attempts[n], folders[n + 1])
  }

  /** The attempt puts a backup of the month into the folder. */
  predicate Brings(a: Attempt, month: Key) {
    (a.outcome == Completed || a.outcome == Interrupted) && a.added.stamp.Some? && a.added.stamp.value.month == month
  }

  lemma AttemptKeepsMonths(before: set<File>, a: Attempt, after: set<File>, month: Key)
    requires AttemptStep(before, a, after) && (HasMonth(before, month) || Brings(a, month))
    ensures HasMonth(after, month)
  {
    if a.outcome == Completed {
      StepKeepsMonths(before, a.added, a.policy, after, month);
    } else if a.outcome == Interrupted {
      InterruptionKeepsMonths(before, a.added, a.policy, after, month);
    }
  }

  /** From one folder to the next the month stays. */
  ghost predicate MonthPersists(folders: seq<set<File>>, month: Key) {
    forall n :: 0 <= n < |folders| - 1 && HasMonth(folders[n], month) ==> HasMonth(folders[n + 1], month)
  }

  lemma RunsPersistMonths(folders: seq<set<File>>, attempts: seq<Attempt>, month: Key)
    requires Run(folders, attempts)
    ensures MonthPersists(folders, month)
  {
    forall n | 0 <= n < |folders| - 1 && HasMonth(folders[n], month)
      ensures HasMonth(folders[n + 1], month)
    {
      AttemptKeepsMonths(folders[n], attempts[n], folders[n + 1], month);
    }
  }

  lemma {:induction false} PersistentMonthStays(folders: seq<set<File>>, m: nat, n: nat, month: Key)
    requires MonthPersists(folders, month) && m <= n < |folders|
    requires HasMonth(folders[m], month)
    ensures HasMonth(folders[n], month)
    decreases n - m
  {
    if m < n {
      PersistentMonthStays(folders, m + 1, n, month);
    }
  }

  /**
   * Over every run of attempts, with any policies and any failures, a month that had a backup at some
   * time, or got one, has one at every later time.
   */
  lemma MonthsNeverDisappear(folders: seq<set<File>>, attempts: seq<Attempt>, m: nat, n: nat, month: Key)
    requires Run(folders, attempts) && m <= n < |folders|
    requires HasMonth(folders[m], month)
      || (m < n && (attempts[m].outcome == Completed || attempts[m].outcome == Interrupted)
          && attempts[m].added.stamp.Some? && attempts[m].added.stamp.value.month == month)
    ensures HasMonth(folders[n], month)
  {
    RunsPersistMonths(folders, attempts, month);
    if HasMonth(folders[m], month) {
      PersistentMonthStays(folders, m, n, month);
    } else {
      AttemptKeepsMonths(folders[m], attempts[m], folders[m + 1], month);
      PersistentMonthStays(folders, m + 1, n, month);
    }
  }

  // ------------------------------------------------------------------------ creating a backup

  lemma {:induction false} NewestExists(files: set<File>) returns (newest: File)
    requires files != {} && forall f :: f in files ==> f.stamp.Some?
    ensures newest in files
    ensures forall f :: f in files ==> newest.stamp.value.time >= f.stamp.value.time
  {
    var x :| x in files;
    if files == {x} {
      return x;
    }
    var y := NewestExists(files - {x});
    newest := if y.stamp.value.time >= x.stamp.value.time then y else x;
    assert forall f :: f in files ==> f == x || f in files - {x};
  }

  /** The stamped files of the backup folder, newest first; none if it is missing or backups are disabled. */
  method ListBackups(enabled: bool, folder: Option<set<File>>) returns (s: seq<File>)
    ensures if enabled && folder.Some? then IsListing(s, folder.value) else s == []
  {
    s := [];
    if !enabled || folder.None? {
      return;
    }
    var files := folder.value;
    var stamped := set f | f in files && f.stamp.Some?;
    var remaining := stamped;
    while remaining != {}
      invariant remaining <= stamped && IsListing(s, stamped - remaining)
      invariant forall i, f :: 0 <= i < |s| && f in remaining ==>
        s[i] in stamped && s[i].stamp.value.time >= f.stamp.value.time
      decreases remaining
    {
      ghost var n := NewestExists(remaining);
      var newest :| newest in remaining
                 && forall f :: f in remaining ==> newest.stamp.value.time >= f.stamp.value.time;
      s := s + [newest];
      remaining := remaining - {newest};
    }
  }

  /**
   * Write a backup, then list and prune. The file may fail to open, the copying to start or the folder
   * to be listed; then nothing is pruned, and the file is there if the copying started or if opening it
   * created it. Pruning stops at a file it cannot remove.
   */
  method CreateBackup(folder: Folder, enabled: bool, backup: File, p: Policy,
                      handleOpened: bool, copyStarted: bool, created: bool, listed: bool) returns (r: Outcome)
    modifies folder
    ensures AttemptStep(old(folder.files), Attempt(backup, p, r), folder.files)
    ensures r == if !enabled then Disabled
                 else if !(handleOpened && copyStarted && listed) then Failed
                 else if folder.refusals == old(folder.refusals) then Completed
                 else Interrupted
    ensures r == Failed ==>
      folder.files == old(folder.files) + (if created || (handleOpened && copyStarted) then {backup} else {})
  {
    if !enabled {
      return Disabled;
    }
    if created || (handleOpened && copyStarted) {
      folder.files := folder.files + {backup};
    }
    if !(handleOpened && copyStarted && listed) {
      return Failed;
    }
    var all := ListBackups(enabled, Some(folder.files));
    var reached := folder.Prune(all, p);
    r := if reached < |all| then Interrupted else Completed;
  }
}
