/** Children in name order, and the descendants of a node. */
module CategoryDescent {
  import opened CategoryNodes
  import opened Sets

  // ------------------------------------------------------------------------ name order

  /** Lexicographic order, as std::string compares. */
  predicate NameLess(a: string, b: string) {
    if b == "" then false
    else if a == "" then true
    else a[0] < b[0] || (a[0] == b[0] && NameLess(a[1..], b[1..]))
  }

  /** The names agree before position k, where the first ends or has the smaller character. */
  predicate SmallerAt(a: string, b: string, k: nat) {
    k <= |a| && k < |b| && a[..k] == b[..k] && (k < |a| ==> a[k] < b[k])
  }

  lemma SmallerBehind(a: string, b: string, k: nat)
    requires a != "" && b != "" && a[0] == b[0]
    ensures SmallerAt(a, b, k + 1) <==> SmallerAt(a[1..], b[1..], k)
  {
    if k <= |a[1..]| && k < |b[1..]| {
      assert a[..k + 1] == [a[0]] + a[1..][..k] && b[..k + 1] == [b[0]] + b[1..][..k];
    }
  }

  /** A name comes before another if it begins it, or has the smaller character at the first difference. */
  lemma {:induction false} NameLessExactlyWhen(a: string, b: string)
    ensures NameLess(a, b) <==> exists k: nat :: SmallerAt(a, b, k)
  {
    if a != "" && b != "" && a[0] == b[0] {
      NameLessExactlyWhen(a[1..], b[1..]);
      if k: nat :| SmallerAt(a[1..], b[1..], k) {
        SmallerBehind(a, b, k);
      }
      if k: nat :| SmallerAt(a, b, k) {
        assert k > 0;
        SmallerBehind(a, b, k - 1);
      }
    } else if NameLess(a, b) {
      assert SmallerAt(a, b, 0);
    } else {
      forall k: nat
        ensures !SmallerAt(a, b, k)
      {
        assert k > 0 && a != "" && b != "" && k <= |a| && k < |b| ==> a[..k][0] == a[0] && b[..k][0] == b[0];
      }
    }
  }

  lemma {:induction false} NameLessTransitive(a: string, b: string, c: string)
    requires !NameLess(b, a) && !NameLess(c, b)
    ensures !NameLess(c, a)
  {
    if a != "" && b != "" && c != "" && a[0] == b[0] == c[0] {
      NameLessTransitive(a[1..], b[1..], c[1..]);
    }
  }

  lemma {:induction false} NameLessAsymmetric(a: string, b: string)
    requires NameLess(a, b)
    ensures !NameLess(b, a)
  {
    if a != "" && a[0] == b[0] {
      NameLessAsymmetric(a[1..], b[1..]);
    }
  }

  predicate InTree(cs: seq<Category>, ids: seq<int>) {
    forall k :: 0 <= k < |ids| ==> 0 <= ids[k] < |cs|
  }

  /** No id comes before one with a smaller name. */
  predicate NameSorted(cs: seq<Category>, ids: seq<int>)
    requires InTree(cs, ids)
  {
    forall j, k :: 0 <= j < k < |ids| ==> !NameLess(cs[ids[k]].fullName, cs[ids[j]].fullName)
  }

  function InsertByName(cs: seq<Category>, id: int, ids: seq<int>): (r: seq<int>)
    requires 0 <= id < |cs| && InTree(cs, ids)
    ensures multiset(r) == multiset(ids) + multiset{id}
    ensures InTree(cs, r)
  {
    if ids == [] then [id]
    else if NameLess(cs[id].fullName, cs[ids[0]].fullName) then [id] + ids
    else
      assert ids == [ids[0]] + ids[1..];
      [ids[0]] + InsertByName(cs, id, ids[1..])
  }

  function SortByName(cs: seq<Category>, ids: seq<int>): (r: seq<int>)
    requires InTree(cs, ids)
    ensures multiset(r) == multiset(ids)
    ensures InTree(cs, r)
  {
    if ids == [] then []
    else
      assert ids == [ids[0]] + ids[1..];
      InsertByName(cs, ids[0], SortByName(cs, ids[1..]))
  }

  /** Putting an entry in front keeps the order if none of the others sorts before it. */
  lemma FrontKeepsSorted(cs: seq<Category>, id: int, ids: seq<int>)
    requires 0 <= id < |cs| && InTree(cs, ids) && NameSorted(cs, ids)
    requires forall x :: x in ids ==> !NameLess(cs[x].fullName, cs[id].fullName)
    ensures InTree(cs, [id] + ids) && NameSorted(cs, [id] + ids)
  {
  }

  lemma {:induction false} InsertKeepsSorted(cs: seq<Category>, id: int, ids: seq<int>)
    requires 0 <= id < |cs| && InTree(cs, ids) && NameSorted(cs, ids)
    ensures NameSorted(cs, InsertByName(cs, id, ids))
  {
    if ids != [] {
      if NameLess(cs[id].fullName, cs[ids[0]].fullName) {
        NameLessAsymmetric(cs[id].fullName, cs[ids[0]].fullName);
        forall x | x in ids
          ensures !NameLess(cs[x].fullName, cs[id].fullName)
        {
          if x != ids[0] {
            NameLessTransitive(cs[id].fullName, cs[ids[0]].fullName, cs[x].fullName);
          }
        }
        FrontKeepsSorted(cs, id, ids);
      } else {
        var rest := InsertByName(cs, id, ids[1..]);
        InsertKeepsSorted(cs, id, ids[1..]);
        forall x | x in rest
          ensures !NameLess(cs[x].fullName, cs[ids[0]].fullName)
        {
          assert x in multiset(rest);
          assert x == id || x in ids[1..];
        }
        FrontKeepsSorted(cs, ids[0], rest);
      }
    }
  }

  lemma {:induction false} SortSorts(cs: seq<Category>, ids: seq<int>)
    requires InTree(cs, ids)
    ensures NameSorted(cs, SortByName(cs, ids))
  {
    if ids != [] {
      SortSorts(cs, ids[1..]);
      InsertKeepsSorted(cs, ids[0], SortByName(cs, ids[1..]));
    }
  }

  lemma {:induction false} OnceEach(ids: seq<int>)
    ensures NoRepeats(ids) <==> forall x :: multiset(ids)[x] <= 1
  {
    if ids != [] {
      var init, last := ids[..|ids| - 1], ids[|ids| - 1];
      OnceEach(init);
      assert ids == init + [last];
      assert multiset(ids) == multiset(init) + multiset{last};
      if NoRepeats(ids) {
        assert last !in init;
        assert multiset(init)[last] == 0;
      }
      if NoRepeats(init) && !NoRepeats(ids) {
        var j, k :| 0 <= j < k < |ids| && ids[j] == ids[k];
        assert k == |ids| - 1 && init[j] == last;
        assert last in multiset(init);
        assert multiset(ids)[last] >= 2;
      }
      if !NoRepeats(init) {
        var x :| multiset(init)[x] > 1;
        assert multiset(ids)[x] > 1;
      }
    }
  }

  lemma SameMembersOnce(ids: seq<int>, others: seq<int>)
    requires NoRepeats(ids) && multiset(ids) == multiset(others)
    ensures NoRepeats(others)
  {
    OnceEach(ids);
    OnceEach(others);
  }

  // ------------------------------------------------------------------------ descendants

  /** Node d is node a or lies somewhere below it. */
  predicate Descends(cs: seq<Category>, d: int, a: int)
    decreases d
  {
    && 0 <= d < |cs|
    && (d == a || (0 <= cs[d].parentId < d && Descends(cs, cs[d].parentId, a)))
  }

  lemma {:induction false} DescendsUp(cs: seq<Category>, d: int, a: int)
    requires Descends(cs, d, a)
    ensures 0 <= a <= d
    decreases d
  {
    if d != a {
      DescendsUp(cs, cs[d].parentId, a);
    }
  }

  lemma {:induction false} DescendsTransitive(cs: seq<Category>, d: int, b: int, a: int)
    requires Descends(cs, d, b) && Descends(cs, b, a)
    ensures Descends(cs, d, a)
    decreases d
  {
    if d != b {
      DescendsTransitive(cs, cs[d].parentId, b, a);
    }
  }

  lemma ChildDescends(cs: seq<Category>, c: int, a: int)
    requires Linked(cs) && 0 <= a < |cs| && c in cs[a].children
    ensures a < c < |cs| && cs[c].parentId == a && Descends(cs, c, a)
  {
    assert LinkedDown(cs, a);
    assert Descends(cs, a, a);
  }

  /** A proper descendant goes through exactly one child. */
  lemma {:induction false} ThroughChild(cs: seq<Category>, d: int, a: int) returns (c: int)
    requires Linked(cs) && Descends(cs, d, a) && d != a
    ensures 0 <= a < |cs| && c in cs[a].children && Descends(cs, d, c)
    decreases d
  {
    DescendsUp(cs, d, a);
    if cs[d].parentId == a {
      assert LinkedDown(cs, a);
      c := d;
    } else {
      c := ThroughChild(cs, cs[d].parentId, a);
    }
  }

  lemma {:induction false} SiblingsApart(cs: seq<Category>, a: int, b: int, c: int, d: int)
    requires Linked(cs) && 0 <= a < |cs| && b in cs[a].children && c in cs[a].children && b != c
    ensures !(Descends(cs, d, b) && Descends(cs, d, c))
    decreases d
  {
    if Descends(cs, d, b) && Descends(cs, d, c) {
      ChildDescends(cs, b, a);
      ChildDescends(cs, c, a);
      if d == b {
        DescendsUp(cs, a, c);
      } else if d == c {
        DescendsUp(cs, a, b);
      } else {
        SiblingsApart(cs, a, b, c, cs[d].parentId);
      }
    }
  }

  // ------------------------------------------------------------------------ depth first

  /** The nodes have ids above a number. */
  predicate LieAbove(cs: seq<Category>, ids: seq<int>, above: int) {
    forall k :: 0 <= k < |ids| ==> above < ids[k] < |cs|
  }

  lemma ChildrenLieAbove(cs: seq<Category>, id: int)
    requires Linked(cs) && 0 <= id < |cs|
    ensures InTree(cs, cs[id].children) && LieAbove(cs, cs[id].children, id)
  {
    assert LinkedDown(cs, id);
    forall k | 0 <= k < |cs[id].children|
      ensures id < cs[id].children[k] < |cs|
    {
      ChildDescends(cs, cs[id].children[k], id);
    }
  }

  lemma PermutedLieAbove(cs: seq<Category>, ids: seq<int>, others: seq<int>, above: int)
    requires LieAbove(cs, ids, above) && multiset(others) == multiset(ids)
    ensures LieAbove(cs, others, above)
  {
    forall k | 0 <= k < |others|
      ensures above < others[k] < |cs|
    {
      assert others[k] in multiset(others);
    }
  }

  lemma SortedChildrenLieAbove(cs: seq<Category>, id: int)
    requires Linked(cs) && 0 <= id < |cs|
    ensures InTree(cs, cs[id].children)
    ensures LieAbove(cs, SortByName(cs, cs[id].children), id)
  {
    ChildrenLieAbove(cs, id);
    PermutedLieAbove(cs, cs[id].children, SortByName(cs, cs[id].children), id);
  }

  /** A node and everything below it, depth first, with the last child in name order visited first. */
  ghost function DepthFirst(cs: seq<Category>, id: int): seq<int>
    requires Linked(cs) && 0 <= id < |cs|
    decreases |cs| - id, 1, 0
  {
    SortedChildrenLieAbove(cs, id);
    [id] + DepthFirstAll(cs, SortByName(cs, cs[id].children), id)
  }

  /** The same for several nodes with ids above a number, the last one first. */
  ghost function DepthFirstAll(cs: seq<Category>, ids: seq<int>, above: int): seq<int>
    requires Linked(cs) && INVALID <= above && LieAbove(cs, ids, above)
    decreases |cs| - above, 0, |ids|
  {
    if ids == [] then []
    else DepthFirst(cs, ids[|ids| - 1]) + DepthFirstAll(cs, ids[..|ids| - 1], above)
  }

  lemma {:induction false} DepthFirstAnywhere(cs: seq<Category>, ids: seq<int>, above: int)
    requires Linked(cs) && INVALID <= above && LieAbove(cs, ids, above)
    ensures DepthFirstAll(cs, ids, above) == DepthFirstAll(cs, ids, INVALID)
    decreases |ids|
  {
    if ids != [] {
      DepthFirstAnywhere(cs, ids[..|ids| - 1], above);
    }
  }

  lemma CatAssoc(a: seq<int>, b: seq<int>, c: seq<int>)
    ensures (a + b) + c == a + (b + c)
  {
  }

  lemma {:induction false} DepthFirstConcat(cs: seq<Category>, a: seq<int>, b: seq<int>)
    requires Linked(cs) && LieAbove(cs, a, INVALID) && LieAbove(cs, b, INVALID)
    ensures LieAbove(cs, a + b, INVALID)
    ensures DepthFirstAll(cs, a + b, INVALID) == DepthFirstAll(cs, b, INVALID) + DepthFirstAll(cs, a, INVALID)
    decreases |b|
  {
    if b == [] {
      assert a + b == a;
    } else {
      var init, last := b[..|b| - 1], b[|b| - 1];
      assert b == init + [last];
      DepthFirstConcat(cs, a, init);
      CatAssoc(a, init, [last]);
      CatAssoc(DepthFirst(cs, last), DepthFirstAll(cs, init, INVALID), DepthFirstAll(cs, a, INVALID));
    }
  }

  /** The stack of a traversal holds what is still to come, its top first. */
  ghost predicate InOrder(cs: seq<Category>, top: int, emitted: seq<int>, stack: seq<int>) {
    && Linked(cs) && 0 <= top < |cs| && LieAbove(cs, stack, INVALID)
    && emitted + DepthFirstAll(cs, stack, INVALID) == DepthFirst(cs, top)
  }

  lemma EmptyAround(s: seq<int>)
    ensures [] + (s + []) == s
  {
  }

  lemma StartInOrder(cs: seq<Category>, top: int)
    requires Linked(cs) && 0 <= top < |cs|
    ensures InOrder(cs, top, [], [top])
  {
    assert [] + [top] == [top];
    EmptyAround(DepthFirst(cs, top));
  }

  lemma DepthFirstUnfolds(cs: seq<Category>, id: int, children: seq<int>)
    requires Linked(cs) && 0 <= id < |cs|
    requires InTree(cs, cs[id].children) ==> children == SortByName(cs, cs[id].children)
    ensures LieAbove(cs, children, INVALID)
    ensures DepthFirst(cs, id) == [id] + DepthFirstAll(cs, children, INVALID)
  {
    SortedChildrenLieAbove(cs, id);
    DepthFirstAnywhere(cs, children, id);
  }

  lemma DepthFirstTop(cs: seq<Category>, rest: seq<int>, cur: int)
    requires Linked(cs) && LieAbove(cs, rest + [cur], INVALID)
    ensures 0 <= cur < |cs| && LieAbove(cs, rest, INVALID)
    ensures DepthFirstAll(cs, rest + [cur], INVALID) == DepthFirst(cs, cur) + DepthFirstAll(cs, rest, INVALID)
  {
    var stack := rest + [cur];
    assert stack[|rest|] == cur;
    assert forall k :: 0 <= k < |rest| ==> rest[k] == stack[k];
  }

  lemma CatAcross(emitted: seq<int>, cur: int, below: seq<int>, behind: seq<int>)
    ensures emitted + (([cur] + below) + behind) == (emitted + [cur]) + (below + behind)
  {
  }

  lemma PopInOrder(cs: seq<Category>, top: int, emitted: seq<int>, rest: seq<int>, cur: int, children: seq<int>)
    requires InOrder(cs, top, emitted, rest + [cur])
    requires 0 <= cur < |cs| && InTree(cs, cs[cur].children) ==> children == SortByName(cs, cs[cur].children)
    ensures InOrder(cs, top, emitted + [cur], rest + children)
    ensures |emitted| < |DepthFirst(cs, top)|
  {
    DepthFirstTop(cs, rest, cur);
    DepthFirstUnfolds(cs, cur, children);
    DepthFirstConcat(cs, rest, children);
    CatAcross(emitted, cur, DepthFirstAll(cs, children, INVALID), DepthFirstAll(cs, rest, INVALID));
  }

  // ------------------------------------------------------------------------ the traversal

  /** Every node below a stacked one is still to come. */
  predicate Pending(cs: seq<Category>, stack: seq<int>, d: int) {
    exists s :: 0 <= s < |stack| && Descends(cs, d, stack[s])
  }

  /** No node lies below two stacked ones. */
  ghost predicate Apart(cs: seq<Category>, stack: seq<int>) {
    forall s, t, d :: 0 <= s < t < |stack| && Descends(cs, d, stack[s]) ==> !Descends(cs, d, stack[t])
  }

  /** Part way through the traversal from `top`: what is emitted and what is stacked. */
  ghost predicate Traversing(cs: seq<Category>, top: int, emitted: seq<int>, stack: seq<int>) {
    && NoRepeats(emitted)
    && (forall x :: x in emitted ==> Descends(cs, x, top) && !Pending(cs, stack, x))
    && (forall s :: 0 <= s < |stack| ==> Descends(cs, stack[s], top))
    && (forall d :: Descends(cs, d, top) ==> d in emitted || Pending(cs, stack, d))
    && Apart(cs, stack)
  }

  lemma StartTraversal(cs: seq<Category>, top: int)
    requires 0 <= top < |cs|
    ensures Traversing(cs, top, [], [top])
  {
    forall d | Descends(cs, d, top)
      ensures Pending(cs, [top], d)
    {
      assert [top][0] == top;
    }
  }

  /** Replacing the top of the stack by its children leaves its proper descendants pending. */
  lemma PendingAfterPop(cs: seq<Category>, rest: seq<int>, cur: int, children: seq<int>, d: int)
    requires Linked(cs) && 0 <= cur < |cs| && multiset(children) == multiset(cs[cur].children)
    requires Apart(cs, rest + [cur])
    ensures Pending(cs, rest + children, d) <==> Pending(cs, rest + [cur], d) && d != cur
  {
    assert forall c :: c in children <==> c in multiset(children);
    assert forall c :: c in cs[cur].children <==> c in multiset(cs[cur].children);
    if Pending(cs, rest + children, d) {
      var s :| 0 <= s < |rest + children| && Descends(cs, d, (rest + children)[s]);
      if s < |rest| {
        assert (rest + [cur])[s] == rest[s] && (rest + [cur])[|rest|] == cur;
        assert Descends(cs, cur, cur);
      } else {
        var c := children[s - |rest|];
        ChildDescends(cs, c, cur);
        DescendsTransitive(cs, d, c, cur);
        DescendsUp(cs, d, c);
        assert (rest + [cur])[|rest|] == cur;
      }
    }
    if Pending(cs, rest + [cur], d) && d != cur {
      var s :| 0 <= s < |rest + [cur]| && Descends(cs, d, (rest + [cur])[s]);
      if s < |rest| {
        assert (rest + children)[s] == rest[s];
      } else {
        var c := ThroughChild(cs, d, cur);
        var k :| 0 <= k < |children| && children[k] == c;
        assert (rest + children)[|rest| + k] == c;
      }
    }
  }

  lemma ApartAfterPop(cs: seq<Category>, rest: seq<int>, cur: int, children: seq<int>)
    requires Linked(cs) && 0 <= cur < |cs| && multiset(children) == multiset(cs[cur].children)
    requires NoRepeats(children) && Apart(cs, rest + [cur])
    ensures Apart(cs, rest + children)
  {
    var old', new' := rest + [cur], rest + children;
    assert forall c :: c in children <==> c in multiset(children);
    assert forall c :: c in cs[cur].children <==> c in multiset(cs[cur].children);
    assert forall s :: 0 <= s < |rest| ==> old'[s] == new'[s] == rest[s];
    assert old'[|rest|] == cur;
    forall s, t, d | 0 <= s < t < |new'| && Descends(cs, d, new'[s])
      ensures !Descends(cs, d, new'[t])
    {
      if Descends(cs, d, new'[t]) {
        if t >= |rest| {
          var c := children[t - |rest|];
          ChildDescends(cs, c, cur);
          if s < |rest| {
            DescendsTransitive(cs, d, c, cur);
          } else {
            SiblingsApart(cs, cur, children[s - |rest|], c, d);
          }
        }
      }
    }
  }

  lemma {:induction false} NoRepeatsSize(ids: seq<int>)
    requires NoRepeats(ids)
    ensures |set x | x in ids| == |ids|
  {
    if ids != [] {
      var init := ids[..|ids| - 1];
      NoRepeatsSize(init);
      assert ids == init + [ids[|ids| - 1]];
      assert (set x | x in ids) == (set x | x in init) + {ids[|ids| - 1]};
    }
  }

  /** Distinct nodes are at most as many as the tree has. */
  lemma EmittedBound(cs: seq<Category>, top: int, emitted: seq<int>, stack: seq<int>)
    requires Traversing(cs, top, emitted, stack)
    ensures |emitted| <= |cs|
    ensures stack != [] ==> |emitted| < |cs|
  {
    var ids := if stack == [] then emitted else emitted + [stack[|stack| - 1]];
    if stack != [] {
      var cur := stack[|stack| - 1];
      assert Pending(cs, stack, cur);
      NoRepeatsAppend(emitted, cur);
    }
    NoRepeatsSize(ids);
    assert forall x :: x in ids ==> Descends(cs, x, top);
    SubsetSize((set x | x in ids), Upto(|cs|));
  }

  /** One turn of the traversal. */
  lemma Pop(cs: seq<Category>, top: int, emitted: seq<int>, rest: seq<int>, cur: int, children: seq<int>)
    requires Linked(cs) && Traversing(cs, top, emitted, rest + [cur])
    requires 0 <= cur < |cs| && multiset(children) == multiset(cs[cur].children) && NoRepeats(children)
    ensures Traversing(cs, top, emitted + [cur], rest + children)
  {
    var stack, stack' := rest + [cur], rest + children;
    assert stack[|rest|] == cur && Pending(cs, stack, cur);
    NoRepeatsAppend(emitted, cur);
    ApartAfterPop(cs, rest, cur, children);
    forall d
      ensures Pending(cs, stack', d) <==> Pending(cs, stack, d) && d != cur
    {
      PendingAfterPop(cs, rest, cur, children, d);
    }
    forall s | 0 <= s < |stack'|
      ensures Descends(cs, stack'[s], top)
    {
      if s < |rest| {
        assert stack[s] == rest[s];
      } else {
        assert children[s - |rest|] in multiset(children);
        ChildDescends(cs, stack'[s], cur);
        DescendsTransitive(cs, stack'[s], cur, top);
      }
    }
  }

  lemma SortedChildrenOnce(cs: seq<Category>, id: int)
    requires Linked(cs) && 0 <= id < |cs|
    ensures InTree(cs, cs[id].children) && NoRepeats(SortByName(cs, cs[id].children))
  {
    ChildrenLieAbove(cs, id);
    assert LinkedDown(cs, id);
    SameMembersOnce(cs[id].children, SortByName(cs, cs[id].children));
  }

  lemma NextTurn(cs: seq<Category>, top: int, emitted: seq<int>, rest: seq<int>, cur: int) returns (stack: seq<int>)
    requires Traversing(cs, top, emitted, rest + [cur]) && InOrder(cs, top, emitted, rest + [cur])
    ensures |emitted| < |cs|
    ensures Traversing(cs, top, emitted + [cur], stack) && InOrder(cs, top, emitted + [cur], stack)
  {
    assert (rest + [cur])[|rest|] == cur;
    EmittedBound(cs, top, emitted, rest + [cur]);
    SortedChildrenOnce(cs, cur);
    var children := SortByName(cs, cs[cur].children);
    Pop(cs, top, emitted, rest, cur, children);
    PopInOrder(cs, top, emitted, rest, cur, children);
    stack := rest + children;
  }

  /** Carried to its end, a traversal emits the subtree depth first, each node once. */
  lemma {:induction false} Traverse(cs: seq<Category>, top: int, emitted: seq<int>, stack: seq<int>)
    requires Traversing(cs, top, emitted, stack) && InOrder(cs, top, emitted, stack)
    ensures NoRepeats(DepthFirst(cs, top))
    ensures forall d :: d in DepthFirst(cs, top) <==> Descends(cs, d, top)
    decreases |cs| - |emitted|
  {
    if stack == [] {
      assert emitted + [] == emitted;
    } else {
      var rest, cur := stack[..|stack| - 1], stack[|stack| - 1];
      assert stack == rest + [cur];
      var next := NextTurn(cs, top, emitted, rest, cur);
      Traverse(cs, top, emitted + [cur], next);
    }
  }

  /** Depth first, a node and everything below it come exactly once, and nothing else. */
  lemma SubtreeOnce(cs: seq<Category>, top: int)
    requires Linked(cs) && 0 <= top < |cs|
    ensures NoRepeats(DepthFirst(cs, top))
    ensures forall d :: d in DepthFirst(cs, top) <==> Descends(cs, d, top)
  {
    StartTraversal(cs, top);
    StartInOrder(cs, top);
    Traverse(cs, top, [], [top]);
  }
}
