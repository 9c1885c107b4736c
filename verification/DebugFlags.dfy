/** Changing debug flags as an undoable command (src/commands/src/commands/update_debug_flags_command.cpp). */
module DebugFlags {
  import opened CategoryNodes
  import opened Options
  import opened LogManager
  import opened Commands

  /** The levels with every category that the list names set to the listed level, in order. */
  function Assign(levels: map<string, LogLevel>, cs: seq<Category>): map<string, LogLevel>
    decreases cs
  {
    if cs == [] then levels
    else
      var c := cs[|cs| - 1];
      var rest := Assign(levels, cs[..|cs| - 1]);
      if c.fullName in rest then rest[c.fullName := c.level] else rest
  }

  /** The last level a list gives a name. */
  function LevelIn(cs: seq<Category>, name: string, otherwise: LogLevel): LogLevel {
    if cs == [] then otherwise
    else if cs[|cs| - 1].fullName == name then cs[|cs| - 1].level
    else LevelIn(cs[..|cs| - 1], name, otherwise)
  }

  lemma {:induction false} AssignedLevel(levels: map<string, LogLevel>, cs: seq<Category>)
    ensures Assign(levels, cs).Keys == levels.Keys
    ensures forall n :: n in levels ==> Assign(levels, cs)[n] == LevelIn(cs, n, levels[n])
  {
    if cs != [] {
      AssignedLevel(levels, cs[..|cs| - 1]);
    }
  }

  /** What the command reads and writes: the levels, and the file of overrides. */
  datatype Persisted = Persisted(levels: map<string, LogLevel>, file: Option<map<string, int>>)

  /** What the command does not change: the default level, and the level of a hidden root. */
  datatype Setting = Setting(byDefault: LogLevel, hidden: Option<LogLevel>)

  function FileFor(levels: map<string, LogLevel>, setting: Setting): map<string, int> {
    SavedFrom(levels, setting.hidden, setting.byDefault)
  }

  /** New levels, and the file as it is then: rewritten if the command saves. */
  function WithLevels(p: Persisted, levels: map<string, LogLevel>, setting: Setting, saves: bool): Persisted {
    Persisted(levels, if saves then Some(FileFor(levels, setting)) else p.file)
  }

  /**
   * What the command does, in the form the undo machinery works with. It saves if it was told to and
   * the file can be opened, which may differ between redo and undo.
   */
  function AsCommand(oldCategories: seq<Category>, categories: seq<Category>, setting: Setting,
                     redoSaves: bool, undoSaves: bool): Command<Persisted>
  {
    Command("Updating debug flag categories",
            (p: Persisted) => WithLevels(p, Assign(p.levels, categories), setting, redoSaves),
            (p: Persisted) => WithLevels(p, Assign(p.levels, oldCategories), setting, undoSaves))
  }

  /** The command: redo sets the new categories' levels, undo the levels captured at construction. */
  class UpdateDebugFlags {
    const oldCategories: seq<Category>
    const categories: seq<Category>
    const persistChanges: bool

    constructor (manager: Manager, categories: seq<Category>, persistChanges: bool)
      ensures this.oldCategories == manager.tree.categories
      ensures this.categories == categories && this.persistChanges == persistChanges
    {
      this.oldCategories := manager.tree.categories;
      this.categories := categories;
      this.persistChanges := persistChanges;
    }

    function Look(manager: Manager): Persisted
      requires manager.Valid()
      reads manager, manager.tree
    {
      Persisted(manager.Current().levels, manager.file)
    }

    /** This command, when its saves succeed or not. */
    function Effect(manager: Manager, saves: bool): Command<Persisted>
      requires manager.Valid()
      reads manager, manager.tree
    {
      AsCommand(oldCategories, categories, Setting(manager.defaultLevel, manager.Hidden()), saves, saves)
    }

    static method ChangeAll(manager: Manager, cs: seq<Category>)
      requires manager.Valid()
      modifies manager.tree
      ensures manager.Valid() && manager.tree.nameToId == old(manager.tree.nameToId)
      ensures manager.Hidden() == old(manager.Hidden())
      ensures manager.Current() == old(manager.Current()).(levels := Assign(old(manager.Current()).levels, cs))
    {
      ghost var before := manager.Current();
      for i := 0 to |cs|
        invariant manager.Valid() && manager.tree.nameToId == old(manager.tree.nameToId)
        invariant manager.Hidden() == old(manager.Hidden())
        invariant manager.Current() == before.(levels := Assign(before.levels, cs[..i]))
      {
        assert cs[..i + 1][..i] == cs[..i];
        manager.ChangeLogLevel(cs[i].fullName, cs[i].level);
      }
      assert cs[..|cs|] == cs;
    }

    method Undo(manager: Manager, canOpen: bool)
      requires manager.Valid()
      modifies manager`file, manager.tree
      ensures manager.Valid() && manager.Hidden() == old(manager.Hidden())
      ensures manager.Current() ==
        old(manager.Current()).(levels := Assign(old(manager.Current()).levels, oldCategories))
      ensures manager.file == if persistChanges && canOpen
        then Some(SavedFrom(manager.Current().levels, manager.Hidden(), manager.defaultLevel)) else old(manager.file)
      ensures Look(manager) == Effect(manager, persistChanges && canOpen).backward(old(Look(manager)))
    {
      ChangeAll(manager, oldCategories);
      if persistChanges {
        manager.SaveOverrides(canOpen);
      }
    }

    method Redo(manager: Manager, canOpen: bool)
      requires manager.Valid()
      modifies manager`file, manager.tree
      ensures manager.Valid() && manager.Hidden() == old(manager.Hidden())
      ensures manager.Current() ==
        old(manager.Current()).(levels := Assign(old(manager.Current()).levels, categories))
      ensures manager.file == if persistChanges && canOpen
        then Some(SavedFrom(manager.Current().levels, manager.Hidden(), manager.defaultLevel)) else old(manager.file)
      ensures Look(manager) == Effect(manager, persistChanges && canOpen).forward(old(Look(manager)))
    {
      ChangeAll(manager, categories);
      if persistChanges {
        manager.SaveOverrides(canOpen);
      }
    }
  }

  /** The file comes back: undo rewrites it as it was, or finds that redo has not changed it. */
  predicate FileComesBack(p: Persisted, categories: seq<Category>, setting: Setting,
                          redoSaves: bool, undoSaves: bool)
  {
    if undoSaves then p.file == Some(FileFor(p.levels, setting))
    else redoSaves ==> p.file == Some(FileFor(Assign(p.levels, categories), setting))
  }

  lemma LevelsComeBackExactlyWhen(levels: map<string, LogLevel>, oldCategories: seq<Category>,
                                  categories: seq<Category>)
    ensures Assign(Assign(levels, categories), oldCategories) == levels
       <==> forall n :: n in levels ==> LevelIn(oldCategories, n, LevelIn(categories, n, levels[n])) == levels[n]
  {
    AssignedLevel(levels, categories);
    AssignedLevel(Assign(levels, categories), oldCategories);
  }

  /**
   * The command can be undone from a state exactly when every category it touches stands, before
   * the redo, at the level the undo brings back, and the file comes back: if undo saves, it was up to
   * date before; if only redo saves, it already held what redo writes.
   */
  lemma ReversibleExactlyWhen(p: Persisted, oldCategories: seq<Category>, categories: seq<Category>,
                              setting: Setting, redoSaves: bool, undoSaves: bool)
    ensures Reversible([AsCommand(oldCategories, categories, setting, redoSaves, undoSaves)], p)
       <==> && (forall n :: n in p.levels ==>
                  LevelIn(oldCategories, n, LevelIn(categories, n, p.levels[n])) == p.levels[n])
            && FileComesBack(p, categories, setting, redoSaves, undoSaves)
  {
    var c := AsCommand(oldCategories, categories, setting, redoSaves, undoSaves);
    var there := WithLevels(p, Assign(p.levels, categories), setting, redoSaves);
    var back := WithLevels(there, Assign(there.levels, oldCategories), setting, undoSaves);
    assert c.backward(c.forward(p)) == back;
    assert Reversible([c], p) <==> back == p by {
      assert [c][1..] == [];
    }
    LevelsComeBackExactlyWhen(p.levels, oldCategories, categories);
  }

  /** A command built from the tree as it stands brings back every level, whatever it sets. */
  lemma FreshCommandIsReversibleExactlyWhen(cs: seq<Category>, index: map<string, int>,
                                            file: Option<map<string, int>>, categories: seq<Category>,
                                            setting: Setting, redoSaves: bool, undoSaves: bool)
    requires InRange(cs, index)
    ensures var p := Persisted(Levels(cs, index), file);
      Reversible([AsCommand(cs, categories, setting, redoSaves, undoSaves)], p)
      <==> FileComesBack(p, categories, setting, redoSaves, undoSaves)
  {
    var levels := Levels(cs, index);
    forall n | n in levels
      ensures LevelIn(cs, n, LevelIn(categories, n, levels[n])) == levels[n]
    {
      TreeLevel(cs, index, |cs|, n, LevelIn(categories, n, levels[n]));
      assert cs[..|cs|] == cs;
    }
    ReversibleExactlyWhen(Persisted(levels, file), cs, categories, setting, redoSaves, undoSaves);
  }

  /** The first save is not undone: the file stays behind. */
  lemma FirstSaveIsNotUndone(cs: seq<Category>, index: map<string, int>, categories: seq<Category>,
                             setting: Setting, redoSaves: bool, undoSaves: bool)
    requires InRange(cs, index) && (redoSaves || undoSaves)
    ensures !Reversible([AsCommand(cs, categories, setting, redoSaves, undoSaves)],
                        Persisted(Levels(cs, index), None))
  {
    FreshCommandIsReversibleExactlyWhen(cs, index, None, categories, setting, redoSaves, undoSaves);
  }

  /** The level the first k nodes give a name: that of its node, or, before it, of a root with the name. */
  lemma {:induction false} TreeLevel(cs: seq<Category>, index: map<string, int>, k: nat, name: string,
                                     otherwise: LogLevel)
    requires InRange(cs, index) && name in index && k <= |cs|
    ensures LevelIn(cs[..k], name, otherwise)
         == if index[name] < k then cs[index[name]].level
            else if name == "" && k > 0 then cs[ROOT].level
            else otherwise
  {
    if k > 0 {
      assert cs[..k][..k - 1] == cs[..k - 1];
      TreeLevel(cs, index, k - 1, name, otherwise);
    }
  }
}
