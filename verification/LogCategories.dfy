/** The tree of log categories (src/logging/src/logging/log_categories.cpp). */
module LogCategories {
  import opened Options
  import opened Text
  import opened CategoryNodes
  import opened CategoryDescent
  import opened CategoryNames

  /** The traversal from a node, known or not. */
  ghost predicate Walking(cs: seq<Category>, id: int, descendants: seq<int>, stack: seq<int>) {
    if 0 <= id < |cs| then InOrder(cs, id, descendants, stack) else descendants + stack == [id]
  }

  /** The nodes not yet emitted; for an unknown id, the stack. */
  ghost function StillToEmit(cs: seq<Category>, id: int, descendants: seq<int>, stack: seq<int>): int
    requires Linked(cs)
  {
    if 0 <= id < |cs| then |DepthFirst(cs, id)| - |descendants| else |stack|
  }

  lemma StartWalk(cs: seq<Category>, id: int)
    requires Linked(cs)
    ensures Walking(cs, id, [], [id])
  {
    if 0 <= id < |cs| {
      StartInOrder(cs, id);
    }
  }

  lemma EndWalk(cs: seq<Category>, id: int, descendants: seq<int>)
    requires Linked(cs) && Walking(cs, id, descendants, [])
    ensures NoRepeats(descendants)
    ensures 0 <= id < |cs| ==> forall d :: d in descendants <==> Descends(cs, d, id)
    ensures !(0 <= id < |cs|) ==> descendants == [id]
    ensures 0 <= id < |cs| ==> descendants == DepthFirst(cs, id)
    ensures descendants != [] && descendants[0] == id
  {
    assert descendants + [] == descendants;
    if 0 <= id < |cs| {
      SubtreeOnce(cs, id);
    }
  }

  lemma UnknownTurn(descendants: seq<int>, rest: seq<int>, cur: int, id: int)
    requires descendants + (rest + [cur]) == [id]
    ensures descendants == rest == [] && cur == id
  {
    var all := descendants + (rest + [cur]);
    assert |all| == |descendants| + |rest| + 1 && all[|all| - 1] == cur;
  }

  /** One turn of the stack loop emits a node and goes on below it. */
  lemma Turn(cs: seq<Category>, id: int, descendants: seq<int>, rest: seq<int>, cur: int, children: seq<int>)
    requires Linked(cs) && Walking(cs, id, descendants, rest + [cur])
    requires 0 <= cur < |cs| && InTree(cs, cs[cur].children) ==> children == SortByName(cs, cs[cur].children)
    requires !(0 <= cur < |cs|) ==> children == []
    ensures Walking(cs, id, descendants + [cur], rest + children)
    ensures 0 <= StillToEmit(cs, id, descendants + [cur], rest + children)
              < StillToEmit(cs, id, descendants, rest + [cur])
  {
    if 0 <= id < |cs| {
      PopInOrder(cs, id, descendants, rest, cur, children);
    } else {
      UnknownTurn(descendants, rest, cur, id);
    }
  }

  /** The tree of the names registered so far. */
  ghost predicate BuiltFrom(cs: seq<Category>, index: map<string, int>, registered: set<string>, level: LogLevel) {
    && InRange(cs, index) && AllAt(cs, level)
    && index.Keys == AllNames(registered)
    && (index[""] == ROOT <==> "" !in registered)
    && ("" !in registered ==> Consistent(cs, index))
  }

  lemma StartsWithRoot(cs: seq<Category>, index: map<string, int>, level: LogLevel)
    requires cs == [Category(ROOT, INVALID, "", "", level, [])] && index == map["" := ROOT]
    ensures BuiltFrom(cs, index, {}, level)
  {
    assert LinkedDown(cs, 0);
  }

  /** Reading by id never throws in a consistent tree, and throws for a hidden root. */
  lemma RootIsReadExactlyWhen(cs: seq<Category>, index: map<string, int>)
    requires InRange(cs, index) && (index[""] == ROOT ==> Consistent(cs, index))
    ensures (forall id :: LookupById(cs, index, id) != Inconsistent) <==> index[""] == ROOT
  {
    if index[""] == ROOT {
      forall id
        ensures LookupById(cs, index, id) != Inconsistent
      {
        LookupNeverInconsistent(cs, index, id);
      }
    } else {
      HiddenRootIsInconsistent(cs, index);
    }
  }

  lemma OneRegistered(names: set<string>, remaining: set<string>, now: set<string>)
    requires remaining <= names && now <= remaining
    ensures names - (remaining - now) == (names - remaining) + now
    ensures names - names == {} && (remaining == {} ==> names - remaining == names)
  {
  }

  class CategoryTree {
    var categories: seq<Category>
    var nameToId: map<string, int>

    /** The root first, then every registered name, with all nodes at the default level. */
    constructor (names: set<string>, level: LogLevel)
      ensures "" !in names ==> Consistent(categories, nameToId)
      ensures InRange(categories, nameToId)
      ensures (forall id :: LookupById(categories, nameToId, id) != Inconsistent) <==> "" !in names
      ensures AllAt(categories, level)
      ensures nameToId.Keys == AllNames(names)
      ensures nameToId[""] == ROOT <==> "" !in names
    {
      categories, nameToId := [Category(ROOT, INVALID, "", "", level, [])], map["" := 0];
      new;
      StartsWithRoot(categories, nameToId, level);
      var remaining := names;
      OneRegistered(names, names, {});
      while remaining != {}
        invariant remaining <= names
        invariant BuiltFrom(categories, nameToId, names - remaining, level)
        decreases |remaining|
      {
        var name :| name in remaining;
        OneRegistered(names, remaining, {name});
        var id := AddLogCategory(name, level, names - remaining);
        remaining := remaining - {name};
      }
      OneRegistered(names, remaining, {});
      RootIsReadExactlyWhen(categories, nameToId);
    }

    function FindLogCategory(name: string): int
      reads this
    {
      if name in nameToId then nameToId[name] else INVALID
    }

    /** Append a node below a parent and index its name. */
    method AddNode(parentId: int, segment: string, fullName: string, level: LogLevel) returns (newId: int)
      requires parentId == INVALID || 0 <= parentId < |categories|
      modifies this
      ensures newId == |old(categories)|
      ensures nameToId == old(nameToId)[fullName := newId]
      ensures categories ==
        if parentId == INVALID then old(categories) + [Category(newId, INVALID, segment, fullName, level, [])]
        else AddBelow(old(categories), parentId, segment, fullName, level)
    {
      newId := |categories|;
      categories := categories + [Category(newId, parentId, segment, fullName, level, [])];
      nameToId := nameToId[fullName := newId];
      if parentId > INVALID {
        categories := categories[parentId :=
          categories[parentId].(children := categories[parentId].children + [newId])];
      }
    }

    /** One piece of a name: move down to the node it names, adding the node if it is missing. */
    method StepDown(parentId: int, currentName: string, segment: string, level: LogLevel)
      returns (newId: int)
      requires InRange(categories, nameToId) && AllAt(categories, level)
      requires 0 <= parentId < |categories| && categories[parentId].fullName == currentName
      modifies this
      ensures InRange(categories, nameToId) && AllAt(categories, level)
      ensures nameToId.Keys == old(nameToId).Keys + {AppendSegment(currentName, segment)}
      ensures nameToId[""] == old(nameToId[""])
      ensures old(Consistent(categories, nameToId)) ==> Consistent(categories, nameToId)
      ensures 0 <= newId < |categories|
      ensures categories[newId].fullName == AppendSegment(currentName, segment)
    {
      var fullName := AppendSegment(currentName, segment);
      newId := FindLogCategory(fullName);
      if newId == INVALID {
        AddKeepsInRange(categories, nameToId, parentId, segment, fullName, level);
        if Consistent(categories, nameToId) {
          AddKeepsConsistent(categories, nameToId, parentId, segment, level);
        }
        newId := AddNode(parentId, segment, fullName, level);
      }
    }

    /** Walk down the pieces of a name from the root, adding the nodes that are missing. */
    method WalkDown(fullName: string, level: LogLevel) returns (newId: int)
      requires InRange(categories, nameToId) && AllAt(categories, level)
      modifies this
      ensures InRange(categories, nameToId) && AllAt(categories, level)
      ensures nameToId.Keys == old(nameToId.Keys) + Names(fullName)
      ensures old(Consistent(categories, nameToId)) ==> Consistent(categories, nameToId)
      ensures nameToId[""] == old(nameToId[""])
      ensures 0 <= newId < |categories|
    {
      ghost var all := nameToId.Keys + Names(fullName);
      ghost var wasConsistent := Consistent(categories, nameToId);
      var currentName, rest := "", fullName;
      newId := ROOT;
      while rest != ""
        invariant InRange(categories, nameToId) && AllAt(categories, level)
        invariant nameToId[""] == old(nameToId[""])
        invariant wasConsistent ==> Consistent(categories, nameToId)
        invariant 0 <= newId < |categories| && categories[newId].fullName == currentName
        invariant nameToId.Keys + NamesFrom(currentName, Segments(rest)) == all
        decreases |rest|
      {
        var segment := rest[..FindDot(rest)];
        OnePieceDown(nameToId.Keys, currentName, rest, all);
        newId := StepDown(newId, currentName, segment, level);
        currentName := AppendSegment(currentName, segment);
        rest := AfterDot(rest);
      }
    }

    /**
     * Register a full name. With the names registered before, the index then holds just the names on
     * the way to any of them.
     */
    method AddLogCategory(fullName: string, level: LogLevel, ghost registered: set<string>)
      returns (newId: int)
      requires BuiltFrom(categories, nameToId, registered, level) && (fullName == "" ==> "" !in registered)
      modifies this
      ensures BuiltFrom(categories, nameToId, registered + {fullName}, level)
      ensures fullName == "" ==> newId == nameToId[""] == |old(categories)|
      ensures 0 <= newId < |categories|
    {
      AllNamesAdd(registered, fullName);
      if fullName == "" {
        NamesEnd("");
        AddLooseKeepsInRange(categories, nameToId, Category(|categories|, INVALID, "", "", level, []));
        newId := AddNode(INVALID, "", fullName, level);
        return;
      }
      newId := FindLogCategory(fullName);
      if newId != INVALID {
        KnownNameAddsNothing(registered, fullName);
        return;
      }
      newId := WalkDown(fullName, level);
    }

    function GetCategoryByName(name: string): Option<Category>
      requires InRange(categories, nameToId)
      reads this
    {
      if name in nameToId then Some(categories[nameToId[name]]) else None
    }

    /** The children of a node in name order; an unknown node has none. */
    function GetChildrenOf(parentId: int): (r: seq<int>)
      requires InRange(categories, nameToId)
      reads this
      ensures 0 <= parentId < |categories| ==> multiset(r) == multiset(categories[parentId].children)
      ensures !(0 <= parentId < |categories|) ==> r == []
      ensures InTree(categories, r) && NameSorted(categories, r)
    {
      if parentId <= INVALID || parentId >= |categories| then []
      else
        var children := categories[parentId].children;
        assert LinkedDown(categories, parentId);
        assert forall k :: 0 <= k < |children| ==> children[k] in children;
        SortSorts(categories, children);
        SortByName(categories, children)
    }

    /** The node and everything below it, depth first, with an explicit stack. */
    method GetAllDescendantsOf(id: int) returns (descendants: seq<int>)
      requires InRange(categories, nameToId)
      ensures NoRepeats(descendants)
      ensures 0 <= id < |categories| ==> forall d :: d in descendants <==> Descends(categories, d, id)
      ensures !(0 <= id < |categories|) ==> descendants == [id]
      ensures descendants != [] && descendants[0] == id
      ensures 0 <= id < |categories| ==> descendants == DepthFirst(categories, id)
    {
      descendants := [];
      var stack := [id];
      ghost var cs := categories;
      StartWalk(cs, id);
      while stack != []
        invariant cs == categories && Walking(cs, id, descendants, stack)
        decreases StillToEmit(cs, id, descendants, stack)
      {
        var currentId := stack[|stack| - 1];
        var rest := stack[..|stack| - 1];
        assert stack == rest + [currentId];
        var children := GetChildrenOf(currentId);
        Turn(cs, id, descendants, rest, currentId, children);
        descendants := descendants + [currentId];
        stack := rest + children;
      }
      EndWalk(cs, id, descendants);
    }

    method SetLogLevel(name: string, level: LogLevel)
      requires InRange(categories, nameToId)
      modifies this`categories
      ensures categories ==
        if name in nameToId
        then old(categories)[nameToId[name] := old(categories)[nameToId[name]].(level := level)]
        else old(categories)
    {
      var id := FindLogCategory(name);
      if id == INVALID {
        return;
      }
      categories := categories[id := categories[id].(level := level)];
    }
  }
}
