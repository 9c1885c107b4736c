/** Nodes of the log-category tree, their names, and what makes a set of nodes a consistent tree. */
module CategoryNodes {
  import opened Text

  /**
   * An eight-bit enumeration. Off to Trace are 0 to 5; a number read from a file may also give a
   * value without a name.
   */
  newtype LogLevel = x: int | -128 <= x < 128

  const INVALID: int := -1
  const ROOT: int := 0

  datatype Category = Category(
    id: int, parentId: int, segment: string, fullName: string, level: LogLevel, children: seq<int>)

  /** What reading a category by id gives: nothing, a category, or the inconsistency exception. */
  datatype Lookup = Missing | Found(category: Category) | Inconsistent

  function AppendSegment(parentFullName: string, segment: string): string {
    if parentFullName == "" then segment else parentFullName + "." + segment
  }

  /** What follows the first dot, if there is one. */
  function AfterDot(s: string): string {
    if FindDot(s) < |s| then s[FindDot(s) + 1..] else ""
  }

  /** The dot-separated pieces of a name; a trailing dot does not start another piece. */
  function Segments(fullName: string): seq<string>
    decreases |fullName|
  {
    if fullName == "" then [] else [fullName[..FindDot(fullName)]] + Segments(AfterDot(fullName))
  }

  /** The name that the pieces make, appended one by one to a prefix. */
  function JoinFrom(prefix: string, segments: seq<string>): string
    decreases segments
  {
    if segments == [] then prefix else JoinFrom(AppendSegment(prefix, segments[0]), segments[1..])
  }

  lemma NextSegment(prefix: string, rest: string)
    requires rest != ""
    ensures JoinFrom(prefix, Segments(rest))
         == JoinFrom(AppendSegment(prefix, rest[..FindDot(rest)]), Segments(AfterDot(rest)))
  {
    assert Segments(rest)[1..] == Segments(AfterDot(rest));
  }

  // ------------------------------------------------------------------------ consistency

  /** Parent and child agree: the link goes back to an earlier node, and the name extends its name. */
  predicate LinkedUp(cs: seq<Category>, i: int)
    requires 0 < i < |cs|
  {
    && 0 <= cs[i].parentId < i
    && cs[i].fullName == AppendSegment(cs[cs[i].parentId].fullName, cs[i].segment)
  }

  predicate NoRepeats(ids: seq<int>) {
    forall j, k :: 0 <= j < k < |ids| ==> ids[j] != ids[k]
  }

  lemma NoRepeatsAppend(ids: seq<int>, x: int)
    requires NoRepeats(ids) && x !in ids
    ensures NoRepeats(ids + [x])
  {
  }

  /** Exactly the nodes whose parent is i, each once. */
  predicate LinkedDown(cs: seq<Category>, i: int)
    requires 0 <= i < |cs|
  {
    && (forall c :: c in cs[i].children ==> 0 < c < |cs| && cs[c].parentId == i)
    && (forall c :: 0 < c < |cs| && cs[c].parentId == i ==> c in cs[i].children)
    && NoRepeats(cs[i].children)
  }

  /** The name index is the inverse of the nodes' names. */
  predicate Indexed(cs: seq<Category>, index: map<string, int>) {
    && (forall i :: 0 <= i < |cs| ==> cs[i].fullName in index && index[cs[i].fullName] == i)
    && (forall n :: n in index ==> 0 <= index[n] < |cs| && cs[index[n]].fullName == n)
  }

  /** The links of a tree: to earlier nodes or to none, and the child lists their inverse. */
  predicate Linked(cs: seq<Category>) {
    && (forall i :: 0 < i < |cs| ==> INVALID <= cs[i].parentId < i)
    && (forall i :: 0 <= i < |cs| ==> LinkedDown(cs, i))
  }

  predicate Consistent(cs: seq<Category>, index: map<string, int>) {
    && |cs| > 0 && cs[0].parentId == INVALID && cs[0].fullName == cs[0].segment == ""
    && (forall i :: 0 <= i < |cs| ==> cs[i].id == i)
    && (forall i :: 0 < i < |cs| ==> LinkedUp(cs, i))
    && (forall i :: 0 <= i < |cs| ==> LinkedDown(cs, i))
    && Indexed(cs, index)
  }

  /** The nodes after a node is added below a parent. */
  function AddBelow(cs: seq<Category>, parent: int, segment: string, fullName: string,
                    level: LogLevel): seq<Category>
    requires 0 <= parent < |cs|
  {
    cs[parent := cs[parent].(children := cs[parent].children + [|cs|])]
    + [Category(|cs|, parent, segment, fullName, level, [])]
  }

  lemma AddKeepsConsistent(cs: seq<Category>, index: map<string, int>, parent: int, segment: string,
                           level: LogLevel)
    requires Consistent(cs, index) && 0 <= parent < |cs|
    requires AppendSegment(cs[parent].fullName, segment) !in index
    ensures var fullName := AppendSegment(cs[parent].fullName, segment);
            Consistent(AddBelow(cs, parent, segment, fullName, level), index[fullName := |cs|])
  {
    var fullName := AppendSegment(cs[parent].fullName, segment);
    var cs' := AddBelow(cs, parent, segment, fullName, level);
    var index' := index[fullName := |cs|];
    assert forall i :: 0 <= i < |cs| ==> cs'[i].fullName == cs[i].fullName && cs'[i].parentId == cs[i].parentId;
    forall i | 0 < i < |cs'|
      ensures LinkedUp(cs', i)
    {
      assert i < |cs| ==> LinkedUp(cs, i);
    }
    forall k | 0 < k < |cs|
      ensures 0 <= cs[k].parentId < k
    {
      assert LinkedUp(cs, k);
    }
    forall i | 0 <= i < |cs'|
      ensures LinkedDown(cs', i)
    {
      AddKeepsLinkedDown(cs, parent, segment, fullName, level, i);
    }
    assert Indexed(cs', index');
  }

  lemma AddKeepsLinkedDown(cs: seq<Category>, parent: int, segment: string, fullName: string,
                           level: LogLevel, i: int)
    requires 0 <= parent < |cs| && 0 <= i <= |cs|
    requires forall k :: 0 < k < |cs| ==> INVALID <= cs[k].parentId < k
    requires forall k :: 0 <= k < |cs| ==> LinkedDown(cs, k)
    ensures LinkedDown(AddBelow(cs, parent, segment, fullName, level), i)
  {
    var cs' := AddBelow(cs, parent, segment, fullName, level);
    assert forall k :: 0 <= k < |cs| ==> cs'[k].parentId == cs[k].parentId;
    if i < |cs| {
      assert LinkedDown(cs, i);
      if i == parent {
        NoRepeatsAppend(cs[i].children, |cs|);
      }
    }
  }

  // ------------------------------------------------------------------------ building the tree

  /**
   * The order every tree has, whatever names are registered: sound links, and an index by which every
   * node but perhaps the root can be found by its name.
   */
  predicate InRange(cs: seq<Category>, index: map<string, int>) {
    && |cs| > 0 && cs[0].fullName == "" && Linked(cs)
    && (forall i :: 0 <= i < |cs| ==> cs[i].fullName in index)
    && (forall n :: n in index ==> 0 <= index[n] < |cs| && cs[index[n]].fullName == n)
    && (forall i :: 0 < i < |cs| ==> index[cs[i].fullName] == i)
  }

  /** A category by id, checked: its id and its name's entry must agree with the place it is at. */
  function LookupById(cs: seq<Category>, index: map<string, int>, id: int): Lookup
    requires InRange(cs, index)
  {
    if id <= INVALID || id >= |cs| then Missing
    else if cs[id].id != id || index[cs[id].fullName] != id then Inconsistent
    else Found(cs[id])
  }

  /** In a consistent tree the check never fails: every id in range is found. */
  lemma LookupNeverInconsistent(cs: seq<Category>, index: map<string, int>, id: int)
    requires Consistent(cs, index)
    ensures InRange(cs, index)
    ensures LookupById(cs, index, id) == if 0 <= id < |cs| then Found(cs[id]) else Missing
  {
    ConsistentInRange(cs, index);
  }

  /** A second node named like the root hides the root: reading the root by id fails. */
  lemma HiddenRootIsInconsistent(cs: seq<Category>, index: map<string, int>)
    requires InRange(cs, index) && index[""] != ROOT
    ensures LookupById(cs, index, ROOT) == Inconsistent
  {
  }

  /** All nodes at one level. */
  predicate AllAt(cs: seq<Category>, level: LogLevel) {
    forall i :: 0 <= i < |cs| ==> cs[i].level == level
  }

  lemma AddKeepsInRange(cs: seq<Category>, index: map<string, int>, parent: int, segment: string,
                        fullName: string, level: LogLevel)
    requires InRange(cs, index) && 0 <= parent < |cs| && AllAt(cs, level) && fullName !in index
    ensures InRange(AddBelow(cs, parent, segment, fullName, level), index[fullName := |cs|])
    ensures AllAt(AddBelow(cs, parent, segment, fullName, level), level)
  {
    var cs' := AddBelow(cs, parent, segment, fullName, level);
    forall i | 0 <= i < |cs'|
      ensures LinkedDown(cs', i)
    {
      AddKeepsLinkedDown(cs, parent, segment, fullName, level, i);
    }
  }

  /** A node without a parent, as registering an empty name adds it. */
  lemma AddLooseKeepsInRange(cs: seq<Category>, index: map<string, int>, node: Category)
    requires InRange(cs, index) && index[""] == ROOT
    requires node.parentId == INVALID && node.children == [] && node.fullName == ""
    ensures InRange(cs + [node], index["" := |cs|])
  {
    var cs' := cs + [node];
    forall i | 0 <= i < |cs'|
      ensures LinkedDown(cs', i)
    {
      assert i < |cs| ==> LinkedDown(cs, i);
    }
  }

  lemma ConsistentIsLinked(cs: seq<Category>, index: map<string, int>)
    requires Consistent(cs, index)
    ensures Linked(cs)
  {
    forall i | 0 < i < |cs|
      ensures 0 <= cs[i].parentId < i
    {
      assert LinkedUp(cs, i);
    }
  }

  lemma ConsistentInRange(cs: seq<Category>, index: map<string, int>)
    requires Consistent(cs, index)
    ensures InRange(cs, index) && index[""] == 0
  {
    ConsistentIsLinked(cs, index);
    assert cs[0].fullName in index;
  }

  function WithoutTrailingDot(s: string): string {
    if s != "" && s[|s| - 1] == '.' then s[..|s| - 1] else s
  }

  lemma SplitAtDot(s: string)
    ensures FindDot(s) < |s| ==> s == s[..FindDot(s)] + "." + AfterDot(s)
    ensures FindDot(s) == |s| ==> s == s[..FindDot(s)]
  {
    var n := FindDot(s);
    if n < |s| {
      SplitAt(s, n);
    }
  }

  lemma DotsAssociate(a: string, b: string, c: string)
    ensures a + "." + (b + "." + c) == a + "." + b + "." + c
  {
  }

  /** What pieces after a first, non-empty one make: the text itself, but for a trailing dot. */
  lemma {:induction false} JoinAfterPrefix(prefix: string, rest: string)
    requires prefix != "" && rest != ""
    ensures JoinFrom(prefix, Segments(rest)) == WithoutTrailingDot(prefix + "." + rest)
    decreases |rest|
  {
    var n := FindDot(rest);
    var first, after := rest[..n], AfterDot(rest);
    var longer := prefix + "." + first;
    SplitAtDot(rest);
    if n == |rest| {
    } else {
      DotsAssociate(prefix, first, after);
      if after == "" {
      } else {
        JoinAfterPrefix(longer, after);
      }
    }
  }

  lemma {:induction false} JoinIsNoLonger(rest: string)
    ensures |JoinFrom("", Segments(rest))| <= |rest|
    decreases |rest|
  {
    if rest != "" {
      NextSegment("", rest);
      SplitAtDot(rest);
      var first := rest[..FindDot(rest)];
      if first == "" {
        JoinIsNoLonger(AfterDot(rest));
      } else if AfterDot(rest) != "" {
        JoinAfterPrefix(first, AfterDot(rest));
      }
    }
  }

  /** A name is the name its pieces make exactly when it neither starts nor ends with a dot. */
  lemma CanonicalExactlyWhen(name: string)
    ensures JoinFrom("", Segments(name)) == name
       <==> name == "" || (name[0] != '.' && name[|name| - 1] != '.')
  {
    if name != "" {
      NextSegment("", name);
      SplitAtDot(name);
      var first, after := name[..FindDot(name)], AfterDot(name);
      if first == "" {
        JoinIsNoLonger(after);
      } else if FindDot(name) == |name| {
        assert JoinFrom(first, Segments("")) == name;
      } else if after == "" {
        assert JoinFrom(first, Segments("")) == first;
      } else {
        JoinAfterPrefix(first, after);
        assert name[0] == first[0];
      }
    }
  }
}
