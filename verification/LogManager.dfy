/** Log levels of the categories, and the overrides kept on disk (src/logging/src/logging/log_manager.cpp). */
module LogManager {
  import opened Options
  import opened CategoryNames
  import opened CategoryNodes
  import opened LogCategories

  /** The number a level is stored as. */
  function LevelNumber(level: LogLevel): (n: int)
    ensures -128 <= n < 128
  {
    level as int
  }

  /** The level a stored number is cast to: its low eight bits, read as a signed number. */
  function NumberLevel(n: int): (level: LogLevel)
    ensures (n - LevelNumber(level)) % 256 == 0
  {
    var m := n % 256;
    (if m < 128 then m else m - 256) as LogLevel
  }

  lemma LevelNumberReadsBack(level: LogLevel)
    ensures NumberLevel(LevelNumber(level)) == level
  {
  }

  /** The nodes with new levels, everything else as before. */
  predicate OnlyLevelsDiffer(a: seq<Category>, b: seq<Category>) {
    |a| == |b| && forall i :: 0 <= i < |a| ==> b[i] == a[i].(level := b[i].level)
  }

  lemma LevelsKeepInRange(a: seq<Category>, b: seq<Category>, index: map<string, int>)
    requires InRange(a, index) && OnlyLevelsDiffer(a, b)
    ensures InRange(b, index)
  {
    forall i | 0 <= i < |b|
      ensures LinkedDown(b, i)
    {
      assert LinkedDown(a, i);
    }
  }

  /** The levels of a tree, by category name. */
  function Levels(cs: seq<Category>, index: map<string, int>): map<string, LogLevel>
    requires InRange(cs, index)
  {
    map n | n in index :: cs[index[n]].level
  }

  /**
   * The level of a root that cannot be found by its name, because the empty name was registered and
   * leads to another node. Changes by name never reach it.
   */
  function HiddenLevel(cs: seq<Category>, index: map<string, int>): Option<LogLevel>
    requires InRange(cs, index)
  {
    if index[""] == ROOT then None else Some(cs[ROOT].level)
  }

  /** The overrides to save: every category away from the default, with its level's number. */
  function Overrides(levels: map<string, LogLevel>, byDefault: LogLevel): map<string, int> {
    map n | n in levels && levels[n] != byDefault :: LevelNumber(levels[n])
  }

  /** What is saved: a hidden root away from the default is listed under the empty name, unless that is. */
  function SavedFrom(levels: map<string, LogLevel>, hidden: Option<LogLevel>, byDefault: LogLevel): map<string, int> {
    (if hidden.Some? && hidden.value != byDefault then map["" := LevelNumber(hidden.value)] else map[])
    + Overrides(levels, byDefault)
  }

  /** The levels after overrides are loaded: named ones change, unknown names are ignored. */
  function Loaded(levels: map<string, LogLevel>, overrides: map<string, int>): map<string, LogLevel> {
    map n | n in levels ::
      if n in overrides then NumberLevel(overrides[n]) else levels[n]
  }

  /** The levels after the default moves: exactly the categories at the old default follow it. */
  function Moved(levels: map<string, LogLevel>, from: LogLevel, to: LogLevel): map<string, LogLevel> {
    map n | n in levels :: if levels[n] == from then to else levels[n]
  }

  /** What moving the default does: a hidden root at the old default takes the empty name along. */
  function MovedWith(levels: map<string, LogLevel>, hidden: Option<LogLevel>, from: LogLevel, to: LogLevel):
    map<string, LogLevel>
  {
    map n | n in levels :: if levels[n] == from || (n == "" && hidden == Some(from)) then to else levels[n]
  }

  /**
   * The default takes along exactly the categories that stood at it, unless a hidden root stands there
   * and the empty name leads to a node at a third level.
   */
  lemma MovesJustTheDefaultExactlyWhen(levels: map<string, LogLevel>, hidden: Option<LogLevel>,
                                       from: LogLevel, to: LogLevel)
    requires "" in levels
    ensures MovedWith(levels, hidden, from, to) == Moved(levels, from, to)
       <==> hidden != Some(from) || levels[""] == from || levels[""] == to
  {
    var with, without := MovedWith(levels, hidden, from, to), Moved(levels, from, to);
    assert forall n :: n in levels && n != "" ==> with[n] == without[n];
    assert with[""] == without[""] <==> hidden != Some(from) || levels[""] == from || levels[""] == to;
  }

  /** All categories at one level. */
  function Uniform(names: set<string>, level: LogLevel): map<string, LogLevel> {
    map n | n in names :: level
  }

  /**
   * Saving and loading into a fresh tree at the same default restores every level, unless a hidden
   * root is away from the default and the empty name leads to a node at it.
   */
  lemma SaveThenLoadRestoresExactlyWhen(levels: map<string, LogLevel>, hidden: Option<LogLevel>,
                                        byDefault: LogLevel)
    requires "" in levels
    ensures Loaded(Uniform(levels.Keys, byDefault), SavedFrom(levels, hidden, byDefault)) == levels
       <==> hidden.None? || hidden.value == byDefault || levels[""] != byDefault
  {
    var restored := Loaded(Uniform(levels.Keys, byDefault), SavedFrom(levels, hidden, byDefault));
    forall n | n in levels
      ensures n != "" ==> restored[n] == levels[n]
      ensures levels[n] != byDefault ==> restored[n] == levels[n]
    {
      LevelNumberReadsBack(levels[n]);
    }
    if hidden.Some? {
      LevelNumberReadsBack(hidden.value);
    }
    assert restored == levels <==> restored[""] == levels[""];
  }

  /**
   * Loading into a tree that starts at another default restores every level exactly when no
   * category stood at the default it was saved under.
   */
  lemma LoadUnderOtherDefaultRestoresExactlyWhen(levels: map<string, LogLevel>, saved: LogLevel,
                                                 later: LogLevel)
    ensures Loaded(Uniform(levels.Keys, later), Overrides(levels, saved)) == levels
       <==> saved == later || saved !in levels.Values
  {
    var restored := Loaded(Uniform(levels.Keys, later), Overrides(levels, saved));
    forall n | n in levels
      ensures restored[n] == if levels[n] == saved then later else levels[n]
    {
      LevelNumberReadsBack(levels[n]);
    }
    if n :| n in levels && levels[n] == saved {
      assert saved in levels.Values;
    }
  }

  /** Changing levels by name, one after the other. */
  datatype Change = ChangeLevel(name: string, level: LogLevel) | ChangeDefault(level: LogLevel)

  datatype State = State(levels: map<string, LogLevel>, byDefault: LogLevel)

  function Apply(s: State, c: Change): State {
    match c
    case ChangeLevel(name, level) =>
      if name in s.levels then s.(levels := s.levels[name := level]) else s
    case ChangeDefault(level) => State(Moved(s.levels, s.byDefault, level), level)
  }

  function ApplyAll(s: State, cs: seq<Change>): State
    decreases cs
  {
    if cs == [] then s else ApplyAll(Apply(s, cs[0]), cs[1..])
  }

  lemma ApplyAllAppends(s: State, cs: seq<Change>, c: Change)
    ensures ApplyAll(s, cs + [c]) == Apply(ApplyAll(s, cs), c)
    decreases cs
  {
    if cs == [] {
      assert ([] + [c])[1..] == [];
    } else {
      assert (cs + [c])[1..] == cs[1..] + [c];
      ApplyAllAppends(Apply(s, cs[0]), cs[1..], c);
    }
  }

  /** Node j has followed the default once the loop has passed it, or, by its name, once it has passed the root. */
  predicate Follows(before: seq<Category>, index: map<string, int>, n: int, from: LogLevel, j: int)
    requires InRange(before, index) && 0 <= j < |before|
  {
    && index[before[j].fullName] == j
    && ((j < n && before[j].level == from) || (before[j].fullName == "" && 0 < n && before[ROOT].level == from))
  }

  /** The loop has passed the first n nodes. */
  predicate MovedUpTo(before: seq<Category>, after: seq<Category>, index: map<string, int>, n: int,
                      from: LogLevel, to: LogLevel)
    requires InRange(before, index)
  {
    && OnlyLevelsDiffer(before, after)
    && forall j :: 0 <= j < |before| ==>
      after[j].level == if Follows(before, index, n, from, j) then to else before[j].level
  }

  lemma LevelsMoved(before: seq<Category>, after: seq<Category>, index: map<string, int>,
                    from: LogLevel, to: LogLevel)
    requires InRange(before, index) && InRange(after, index)
    requires MovedUpTo(before, after, index, |before|, from, to)
    ensures Levels(after, index)
         == MovedWith(Levels(before, index), HiddenLevel(before, index), from, to)
    ensures HiddenLevel(after, index) == HiddenLevel(before, index)
  {
    var levels, hidden := Levels(before, index), HiddenLevel(before, index);
    forall n | n in index
      ensures after[index[n]].level == MovedWith(levels, hidden, from, to)[n]
    {
      assert before[index[n]].fullName == n;
    }
  }

  /** The overrides that are not still to be read. */
  function Read(json: map<string, int>, pending: set<string>): map<string, int> {
    map n | n in json && n !in pending :: json[n]
  }

  lemma ReadOne(levels: map<string, LogLevel>, json: map<string, int>, pending: set<string>,
                name: string, byDefault: LogLevel)
    requires name in pending && name in json
    ensures Apply(State(Loaded(levels, Read(json, pending)), byDefault),
                  ChangeLevel(name, NumberLevel(json[name])))
         == State(Loaded(levels, Read(json, pending - {name})), byDefault)
  {
    var before, after := Loaded(levels, Read(json, pending)), Loaded(levels, Read(json, pending - {name}));
    if name in levels {
      assert after == before[name := NumberLevel(json[name])];
    } else {
      assert after == before;
    }
  }

  /** Setting one node's level moves its name's level and no other. */
  lemma LevelSet(cs: seq<Category>, index: map<string, int>, name: string, level: LogLevel)
    requires InRange(cs, index) && name in index
    ensures var cs' := cs[index[name] := cs[index[name]].(level := level)];
      && InRange(cs', index) && OnlyLevelsDiffer(cs, cs')
      && Levels(cs', index) == Levels(cs, index)[name := level]
      && HiddenLevel(cs', index) == HiddenLevel(cs, index)
  {
    var id := index[name];
    var cs' := cs[id := cs[id].(level := level)];
    assert OnlyLevelsDiffer(cs, cs');
    LevelsKeepInRange(cs, cs', index);
    assert forall n :: n in index && n != name ==> index[n] != id;
  }

  /** The loop passes one more node. */
  lemma MovedOneMore(before: seq<Category>, now: seq<Category>, index: map<string, int>, i: nat,
                     from: LogLevel, to: LogLevel)
    requires InRange(before, index) && i < |before| && MovedUpTo(before, now, index, i, from, to)
    ensures before[i].fullName in index && 0 <= index[before[i].fullName] < |now|
    ensures var id := index[before[i].fullName];
      MovedUpTo(before, if before[i].level == from then now[id := now[id].(level := to)] else now,
                index, i + 1, from, to)
  {
    var id := index[before[i].fullName];
    var next := if before[i].level == from then now[id := now[id].(level := to)] else now;
    forall j | 0 <= j < |before|
      ensures next[j].level == if Follows(before, index, i + 1, from, j) then to else before[j].level
    {
      assert Follows(before, index, i + 1, from, j)
        <==> Follows(before, index, i, from, j) || (j == id && before[i].level == from);
    }
  }

  /** What saving has listed when it has passed the first i nodes. */
  ghost predicate ListedUpTo(cs: seq<Category>, index: map<string, int>, i: int, byDefault: LogLevel,
                       json: map<string, int>)
    requires InRange(cs, index)
  {
    && (forall n :: n in json <==>
          n in index && (Away(cs, index[n], i, byDefault) || (n == "" && Away(cs, ROOT, i, byDefault))))
    && (forall n :: n in json ==>
          json[n] == LevelNumber(if Away(cs, index[n], i, byDefault) then cs[index[n]].level else cs[ROOT].level))
  }

  /** A node among the first i that is away from the default. */
  predicate Away(cs: seq<Category>, j: int, i: int, byDefault: LogLevel) {
    0 <= j < i && j < |cs| && cs[j].level != byDefault
  }

  lemma ListedOneMore(cs: seq<Category>, index: map<string, int>, i: nat, byDefault: LogLevel,
                      json: map<string, int>)
    requires InRange(cs, index) && i < |cs| && ListedUpTo(cs, index, i, byDefault, json)
    ensures ListedUpTo(cs, index, i + 1, byDefault,
      if cs[i].level != byDefault then json[cs[i].fullName := LevelNumber(cs[i].level)] else json)
  {
    forall n | n in index
      ensures Away(cs, index[n], i + 1, byDefault)
         <==> Away(cs, index[n], i, byDefault) || (index[n] == i && cs[i].level != byDefault)
    {
    }
    assert i > 0 ==> index[cs[i].fullName] == i;
  }

  lemma ListedAll(cs: seq<Category>, index: map<string, int>, byDefault: LogLevel, json: map<string, int>)
    requires InRange(cs, index) && ListedUpTo(cs, index, |cs|, byDefault, json)
    ensures json == SavedFrom(Levels(cs, index), HiddenLevel(cs, index), byDefault)
  {
    var saved := SavedFrom(Levels(cs, index), HiddenLevel(cs, index), byDefault);
    assert "" in index;
    forall n
      ensures n in json <==> n in saved
      ensures n in json ==> json[n] == saved[n]
    {
    }
  }

  lemma StartsUniform(cs: seq<Category>, index: map<string, int>, level: LogLevel)
    requires InRange(cs, index) && AllAt(cs, level)
    ensures Levels(cs, index) == Uniform(index.Keys, level)
    ensures HiddenLevel(cs, index) == if index[""] == ROOT then None else Some(level)
  {
  }

  /** The log manager: the tree, the default level, and the file of overrides. */
  class Manager {
    const tree: CategoryTree
    var defaultLevel: LogLevel
    var file: Option<map<string, int>>

    /** Start up: build the tree of the registered names at the default level, and load the overrides. */
    constructor Initialize(names: set<string>, level: LogLevel, stored: Option<map<string, int>>)
      ensures Valid() && fresh(tree) && file == stored
      ensures tree.nameToId.Keys == AllNames(names) && (tree.nameToId[""] == ROOT <==> "" !in names)
      ensures Current() == State(Started(names, level, stored), level)
      ensures Hidden() == if "" in names then Some(level) else None
    {
      tree := new CategoryTree(names, level);
      defaultLevel := level;
      file := stored;
      new;
      StartsUniform(tree.categories, tree.nameToId, level);
      LoadOverrides();
    }

    predicate Valid()
      reads this, tree
    {
      InRange(tree.categories, tree.nameToId)
    }

    /** The levels by name together with the default level. */
    function Current(): State
      requires Valid()
      reads this, tree
    {
      State(Levels(tree.categories, tree.nameToId), defaultLevel)
    }

    function Hidden(): Option<LogLevel>
      requires Valid()
      reads this, tree
    {
      HiddenLevel(tree.categories, tree.nameToId)
    }

    method ChangeLogLevel(name: string, level: LogLevel)
      requires Valid()
      modifies tree
      ensures Valid() && tree.nameToId == old(tree.nameToId) && Hidden() == old(Hidden())
      ensures OnlyLevelsDiffer(old(tree.categories), tree.categories)
      ensures Current() == Apply(old(Current()), ChangeLevel(name, level))
    {
      var category := tree.GetCategoryByName(name);
      if category.None? || category.value.level == level {
        return;
      }
      LevelSet(tree.categories, tree.nameToId, name, level);
      tree.SetLogLevel(name, level);
    }

    /** Walk over a copy of the categories and move those at the default. */
    method MoveDefaultCategories(level: LogLevel)
      requires Valid()
      modifies tree
      ensures Valid() && tree.nameToId == old(tree.nameToId) && Hidden() == old(Hidden())
      ensures OnlyLevelsDiffer(old(tree.categories), tree.categories)
      ensures Current() == State(MovedWith(old(Current()).levels, old(Hidden()), defaultLevel, level), defaultLevel)
    {
      var copy := tree.categories;
      ghost var index := tree.nameToId;
      for i := 0 to |copy|
        invariant Valid() && tree.nameToId == index
        invariant MovedUpTo(copy, tree.categories, index, i, defaultLevel, level)
      {
        MovedOneMore(copy, tree.categories, index, i, defaultLevel, level);
        if copy[i].level == defaultLevel {
          LevelSet(tree.categories, index, copy[i].fullName, level);
          tree.SetLogLevel(copy[i].fullName, level);
        }
      }
      LevelsMoved(copy, tree.categories, index, defaultLevel, level);
    }

    /** Move the default; without a hidden root exactly the categories that stood at it follow. */
    method SetDefaultLogLevel(level: LogLevel)
      requires Valid()
      modifies this`defaultLevel, tree
      ensures Valid() && tree.nameToId == old(tree.nameToId) && Hidden() == old(Hidden())
      ensures OnlyLevelsDiffer(old(tree.categories), tree.categories)
      ensures Current() == State(MovedWith(old(Current()).levels, Hidden(), old(defaultLevel), level), level)
      ensures Hidden().None? ==> Current() == Apply(old(Current()), ChangeDefault(level))
    {
      if Hidden().None? {
        MovesJustTheDefaultExactlyWhen(Current().levels, None, defaultLevel, level);
      }
      MoveDefaultCategories(level);
      defaultLevel := level;
    }

    /** Write the overrides, if the file can be opened. */
    method SaveOverrides(canOpen: bool)
      requires Valid()
      modifies this`file
      ensures file == if canOpen then Some(SavedFrom(Current().levels, Hidden(), defaultLevel)) else old(file)
    {
      var json: map<string, int> := map[];
      for i := 0 to |tree.categories|
        invariant file == old(file)
        invariant ListedUpTo(tree.categories, tree.nameToId, i, defaultLevel, json)
      {
        ListedOneMore(tree.categories, tree.nameToId, i, defaultLevel, json);
        var category := tree.categories[i];
        if category.level != defaultLevel {
          json := json[category.fullName := LevelNumber(category.level)];
        }
      }
      ListedAll(tree.categories, tree.nameToId, defaultLevel, json);
      assert json == SavedFrom(Current().levels, Hidden(), defaultLevel);
      if canOpen {
        file := Some(json);
      }
    }

    /** Read the overrides, if there is a file, in any order; unknown names are passed over. */
    method LoadOverrides()
      requires Valid()
      modifies tree
      ensures Valid() && tree.nameToId == old(tree.nameToId) && Hidden() == old(Hidden())
      ensures OnlyLevelsDiffer(old(tree.categories), tree.categories)
      ensures Current().levels ==
        if file.Some? then Loaded(old(Current().levels), file.value) else old(Current().levels)
    {
      if file.None? {
        return;
      }
      var json := file.value;
      var names := json.Keys;
      ghost var before := Current().levels;
      assert Loaded(before, Read(json, names)) == before;
      while names != {}
        invariant Valid() && tree.nameToId == old(tree.nameToId) && names <= json.Keys
        invariant Hidden() == old(Hidden()) && OnlyLevelsDiffer(old(tree.categories), tree.categories)
        invariant Current() == State(Loaded(before, Read(json, names)), defaultLevel)
        decreases |names|
      {
        var name :| name in names;
        ReadOne(before, json, names, name, defaultLevel);
        ChangeLogLevel(name, NumberLevel(json[name]));
        names := names - {name};
      }
      assert Read(json, {}) == json;
    }

    method MakeChange(c: Change)
      requires Valid()
      modifies this`defaultLevel, tree
      ensures Valid() && tree.nameToId == old(tree.nameToId) && Hidden() == old(Hidden())
      ensures Hidden().None? ==> Current() == Apply(old(Current()), c)
    {
      match c
      case ChangeLevel(name, level) => ChangeLogLevel(name, level);
      case ChangeDefault(level) => SetDefaultLogLevel(level);
    }

    method MakeChanges(cs: seq<Change>)
      requires Valid()
      modifies this`defaultLevel, tree
      ensures Valid() && tree.nameToId == old(tree.nameToId) && Hidden() == old(Hidden())
      ensures Hidden().None? ==> Current() == ApplyAll(old(Current()), cs)
    {
      for i := 0 to |cs|
        invariant Valid() && tree.nameToId == old(tree.nameToId) && Hidden() == old(Hidden())
        invariant Hidden().None? ==> Current() == ApplyAll(old(Current()), cs[..i])
      {
        assert cs[..i + 1] == cs[..i] + [cs[i]];
        ApplyAllAppends(old(Current()), cs[..i], cs[i]);
        MakeChange(cs[i]);
      }
      assert cs[..|cs|] == cs;
    }
  }

  /** The levels at start-up. */
  function Started(names: set<string>, level: LogLevel, stored: Option<map<string, int>>): map<string, LogLevel> {
    if stored.Some? then Loaded(Uniform(AllNames(names), level), stored.value) else Uniform(AllNames(names), level)
  }

  // ------------------------------------------------------------------------ restarting

  /** A hidden root is away from the default, and the empty name leads to a node at it. */
  predicate RestartConfuses(s: State, hidden: Option<LogLevel>) {
    hidden.Some? && hidden.value != s.byDefault && "" in s.levels && s.levels[""] == s.byDefault
  }

  lemma RestartRestoresExactlyWhen(s: State, hidden: Option<LogLevel>, names: set<string>)
    requires s.levels.Keys == AllNames(names)
    ensures Started(names, s.byDefault, Some(SavedFrom(s.levels, hidden, s.byDefault))) == s.levels
       <==> !RestartConfuses(s, hidden)
  {
    assert "" in s.levels;
    SaveThenLoadRestoresExactlyWhen(s.levels, hidden, s.byDefault);
  }

  /**
   * Save, and start again with the same registered names at the default in force. Every level comes
   * back, unless a hidden root is away from the default and the empty name leads to a node at it.
   */
  method Restart(manager: Manager, names: set<string>) returns (again: Manager)
    requires manager.Valid() && manager.tree.nameToId.Keys == AllNames(names)
    modifies manager`file
    ensures manager.Valid() && manager.Current() == old(manager.Current()) && manager.Hidden() == old(manager.Hidden())
    ensures again.Valid() && fresh(again)
    ensures again.Current() == manager.Current() <==> !RestartConfuses(manager.Current(), manager.Hidden())
  {
    manager.SaveOverrides(true);
    assert manager.Current().levels.Keys == AllNames(names);
    RestartRestoresExactlyWhen(manager.Current(), manager.Hidden(), names);
    again := new Manager.Initialize(names, manager.defaultLevel, manager.file);
  }

  /** The state at start-up, and after some changes to a tree without a hidden root. */
  ghost function Changed(names: set<string>, level: LogLevel, stored: Option<map<string, int>>, cs: seq<Change>): State {
    ApplyAll(State(Started(names, level, stored), level), cs)
  }

  method StartAndChange(names: set<string>, level: LogLevel, stored: Option<map<string, int>>, cs: seq<Change>)
    returns (manager: Manager)
    ensures fresh(manager) && fresh(manager.tree) && manager.Valid()
    ensures manager.tree.nameToId.Keys == AllNames(names)
    ensures manager.Hidden() == if "" in names then Some(level) else None
    ensures "" !in names ==> manager.Current() == Changed(names, level, stored, cs)
  {
    manager := new Manager.Initialize(names, level, stored);
    manager.MakeChanges(cs);
  }

  /**
   * From one start-up, over any level and default changes, to the next: every level is restored,
   * unless the empty name is registered, the default has moved since the first start-up, and the
   * node of the empty name stands at the new one.
   */
  method RestartAfterChanges(names: set<string>, level: LogLevel, stored: Option<map<string, int>>, cs: seq<Change>)
    returns (before: State, after: State)
    ensures before.levels.Keys == AllNames(names)
    ensures "" !in names ==> before == Changed(names, level, stored, cs)
    ensures after == before <==> !RestartConfuses(before, if "" in names then Some(level) else None)
  {
    var manager := StartAndChange(names, level, stored, cs);
    before := manager.Current();
    var again := Restart(manager, names);
    after := again.Current();
  }
}
