/** Binding the values of a WHERE expression to the placeholders of its text. */
module WhereBinding {
  import opened FilterTree
  import opened SqlGrammar
  import opened WhereExpr

  /** A prepared statement, as far as its parameters go: numbers to bound values. */
  class Statement {
    var params: map<int, Value>

    constructor ()
      ensures params == map[]
    {
      params := map[];
    }

    method BindValue(index: int, value: Value)
      modifies this
      ensures params == old(params)[index := value]
    {
      params := params[index := value];
    }
  }

  /** The values a clause binds, in order. A WhereClause binds its one value whatever its operator. */
  function ClauseValues(c: Clause): seq<Value> {
    match c
    case WhereClause(_, value, _) => [value]
    case InClause(_, values) => values
    case NullClause(_) => []
  }

  /** All values of a row of clauses, in order. */
  function AllValues(cs: seq<Clause>): seq<Value> {
    if cs == [] then [] else ClauseValues(cs[0]) + AllValues(cs[1..])
  }

  lemma {:induction false} AllValuesConcat(a: seq<Clause>, b: seq<Clause>)
    ensures AllValues(a + b) == AllValues(a) + AllValues(b)
  {
    if a == [] {
      assert a + b == b;
    } else {
      assert (a + b)[1..] == a[1..] + b;
      AllValuesConcat(a[1..], b);
    }
  }

  /** Parameters `first`, `first` + 1, ... set to the given values, all others as before. */
  function BindFrom(params: map<int, Value>, first: int, values: seq<Value>): map<int, Value>
    decreases values
  {
    if values == [] then params
    else BindFrom(params[first := values[0]], first + 1, values[1..])
  }

  /** Parameter `first` + k carries value k, and no other parameter changes. */
  lemma {:induction false} BindFromSets(params: map<int, Value>, first: int, values: seq<Value>, i: int)
    ensures var r := BindFrom(params, first, values);
            if first <= i < first + |values| then i in r && r[i] == values[i - first]
            else (i in r <==> i in params) && (i in params ==> r[i] == params[i])
    decreases values
  {
    if values != [] {
      BindFromSets(params[first := values[0]], first + 1, values[1..], i);
    }
  }

  lemma {:induction false} BindFromConcat(params: map<int, Value>, first: int,
                                          a: seq<Value>, b: seq<Value>)
    ensures BindFrom(BindFrom(params, first, a), first + |a|, b) == BindFrom(params, first, a + b)
    decreases a
  {
    if a == [] {
      assert a + b == b;
    } else {
      assert (a + b)[0] == a[0] && (a + b)[1..] == a[1..] + b;
      BindFromConcat(params[first := a[0]], first + 1, a[1..], b);
    }
  }

  lemma BindBoth(params: map<int, Value>, first: int, l: seq<Clause>, r: seq<Clause>)
    ensures AllValues(l + r) == AllValues(l) + AllValues(r)
    ensures BindFrom(BindFrom(params, first, AllValues(l)), first + |AllValues(l)|, AllValues(r))
         == BindFrom(params, first, AllValues(l + r))
  {
    AllValuesConcat(l, r);
    BindFromConcat(params, first, AllValues(l), AllValues(r));
  }

  method BindClause(c: Clause, statement: Statement, index: int) returns (next: int)
    modifies statement
    ensures statement.params == BindFrom(old(statement.params), index, ClauseValues(c))
    ensures next == index + |ClauseValues(c)|
  {
    next := index;
    match c
    case WhereClause(_, value, _) =>
      statement.BindValue(next, value);
      next := next + 1;
    case InClause(_, values) =>
      for k := 0 to |values|
        invariant next == index + k
        invariant statement.params == BindFrom(old(statement.params), index, values[..k])
      {
        BindFromConcat(old(statement.params), index, values[..k], [values[k]]);
        assert values[..k + 1] == values[..k] + [values[k]];
        statement.BindValue(next, values[k]);
        next := next + 1;
      }
      assert values[..|values|] == values;
    case NullClause(_) =>
  }

  /** Bind an expression's values from parameter `index` on; returns the next free index. */
  method BindAt(e: Expr, statement: Statement, index: int) returns (next: int)
    modifies statement
    ensures statement.params == BindFrom(old(statement.params), index, AllValues(Leaves(e)))
    ensures next == index + |AllValues(Leaves(e))|
    decreases e
  {
    ghost var before := statement.params;
    match e
    case Empty =>
      next := index;
    case Leaf(c) =>
      next := BindClause(c, statement, index);
      assert AllValues([c]) == ClauseValues(c) + AllValues([]) == ClauseValues(c);
    case And(l, r) =>
      next := BindAt(l, statement, index);
      next := BindAt(r, statement, next);
      BindBoth(before, index, Leaves(l), Leaves(r));
    case Or(l, r) =>
      next := BindAt(l, statement, index);
      next := BindAt(r, statement, next);
      BindBoth(before, index, Leaves(l), Leaves(r));
    case Not(v) =>
      next := BindAt(v, statement, index);
  }

  /** Bind an expression to a fresh statement; parameter numbers start at 1. */
  method Bind(e: Expr, statement: Statement)
    modifies statement
    ensures statement.params == BindFrom(old(statement.params), 1, AllValues(Leaves(e)))
  {
    var next := BindAt(e, statement, 1);
  }

  // ------------------------------------------------------------- text against bound values

  /** How many question marks a text holds. */
  function CountMarks(s: string): nat {
    if s == "" then 0 else (if s[0] == '?' then 1 else 0) + CountMarks(s[1..])
  }

  lemma {:induction false} CountMarksConcat(a: string, b: string)
    ensures CountMarks(a + b) == CountMarks(a) + CountMarks(b)
  {
    if a == "" {
      assert a + b == b;
    } else {
      assert (a + b)[1..] == a[1..] + b;
      CountMarksConcat(a[1..], b);
    }
  }

  /** The operators whose text holds two placeholders. */
  predicate IsPair(c: Clause) {
    c.WhereClause? && c.op in {In, NotIn, Operator.Between}
  }

  function PairCount(cs: seq<Clause>): nat {
    if cs == [] then 0 else (if IsPair(cs[0]) then 1 else 0) + PairCount(cs[1..])
  }

  lemma {:induction false} PairCountConcat(a: seq<Clause>, b: seq<Clause>)
    ensures PairCount(a + b) == PairCount(a) + PairCount(b)
  {
    if a == [] {
      assert a + b == b;
    } else {
      assert (a + b)[1..] == a[1..] + b;
      PairCountConcat(a[1..], b);
    }
  }

  lemma {:induction false} CountMoreMarks(n: nat)
    ensures CountMarks(MoreMarks(n)) == n
  {
    if n > 0 {
      CountMoreMarks(n - 1);
      CountMarksConcat(", ?", MoreMarks(n - 1));
      assert CountMarks(", ?") == 1;
    }
  }

  lemma CountListMarks(n: nat)
    ensures CountMarks("IN (" + Marks(n) + ")") == n
  {
    CountMarksConcat("IN (" + Marks(n), ")");
    CountMarksConcat("IN (", Marks(n));
    assert CountMarks("IN (") == 0;
    if n > 0 {
      CountMoreMarks(n - 1);
      CountMarksConcat("?", MoreMarks(n - 1));
    }
  }

  lemma {:induction false} NoMarks(s: string)
    requires forall i :: 0 <= i < |s| ==> s[i] != '?'
    ensures CountMarks(s) == 0
  {
    if s != "" {
      NoMarks(s[1..]);
    }
  }

  lemma {:induction false} OneMark(s: string, i: nat)
    requires i < |s| && s[i] == '?'
    requires forall k :: 0 <= k < |s| && k != i ==> s[k] != '?'
    ensures CountMarks(s) == 1
  {
    if i == 0 {
      NoMarks(s[1..]);
    } else {
      OneMark(s[1..], i - 1);
    }
  }

  lemma {:induction false} TwoMarks(s: string, i: nat, j: nat)
    requires i < j < |s| && s[i] == s[j] == '?'
    requires forall k :: 0 <= k < |s| && k != i && k != j ==> s[k] != '?'
    ensures CountMarks(s) == 2
  {
    if i == 0 {
      OneMark(s[1..], j - 1);
    } else {
      TwoMarks(s[1..], i - 1, j - 1);
    }
  }

  /** A text with all its question marks at one place, or at two, has one, or two. */
  lemma MarksOnlyAt(s: string, i: nat, j: nat)
    requires i <= j < |s| && s[i] == s[j] == '?'
    requires forall k :: 0 <= k < |s| && k != i && k != j ==> s[k] != '?'
    ensures CountMarks(s) == if i == j then 1 else 2
  {
    if i == j {
      OneMark(s, i);
    } else {
      TwoMarks(s, i, j);
    }
  }

  function FirstMark(op: Operator): nat {
    match op
    case In => 4
    case NotIn => 8
    case Between => 8
    case _ => |WhereOperatorStr(op)| - 1
  }

  function LastMark(op: Operator): nat {
    match op
    case In => 7
    case NotIn => 11
    case Between => 14
    case _ => |WhereOperatorStr(op)| - 1
  }

  lemma OperatorMarksAt(op: Operator)
    ensures var s := WhereOperatorStr(op);
      && FirstMark(op) <= LastMark(op) < |s| && s[FirstMark(op)] == s[LastMark(op)] == '?'
      && forall k :: 0 <= k < |s| && k != FirstMark(op) && k != LastMark(op) ==> s[k] != '?'
  {
  }

  lemma CountOperatorMarks(op: Operator)
    ensures CountMarks(WhereOperatorStr(op)) == OperatorForm(op).Placeholders()
  {
    OperatorMarksAt(op);
    MarksOnlyAt(WhereOperatorStr(op), FirstMark(op), LastMark(op));
  }

  lemma CountFormMarks(c: Clause)
    ensures CountMarks(FormText(c)) == ClauseForm(c).Placeholders()
  {
    match c
    case WhereClause(_, _, op) => CountOperatorMarks(op);
    case InClause(_, values) => CountListMarks(|values|);
    case NullClause(_) => NoMarks("IS NULL");
  }

  lemma CountClauseMarks(c: Clause)
    requires c.column.Valid()
    ensures CountMarks(ClauseText(c)) == ClauseForm(c).Placeholders()
  {
    var name := c.column.FullName();
    ClauseTextSplits(c);
    NoMarks(name);
    CountFormMarks(c);
    CountMarksConcat(name + " ", FormText(c));
    CountMarksConcat(name, " ");
  }

  lemma CountBinaryMarks(left: string, middle: string, right: string)
    requires CountMarks(middle) == 0
    ensures CountMarks("(" + left + middle + right + ")") == CountMarks(left) + CountMarks(right)
  {
    CountMarksConcat("(" + left + middle + right, ")");
    CountMarksConcat("(" + left + middle, right);
    CountMarksConcat("(" + left, middle);
    CountMarksConcat("(", left);
  }

  lemma NoMarksInOperators()
    ensures CountMarks(") AND (") == CountMarks(") OR (") == CountMarks("NOT (") == CountMarks(")") == 0
  {
    NoMarks(") AND (");
    NoMarks(") OR (");
    NoMarks("NOT (");
    NoMarks(")");
  }

  lemma CountNegationMarks(operand: string)
    ensures CountMarks("NOT (" + operand + ")") == CountMarks(operand)
  {
    NoMarksInOperators();
    CountMarksConcat("NOT (" + operand, ")");
    CountMarksConcat("NOT (", operand);
  }

  /** The text holds as many question marks as the condition it reads back as has placeholders. */
  lemma {:induction false} TextMarks(e: Expr)
    requires ValidColumns(e)
    ensures CountMarks(DBOperations(e)) == PlaceholderCount(Shape(e))
  {
    match e
    case Empty =>
    case Leaf(c) => CountClauseMarks(c);
    case And(l, r) =>
      TextMarks(l);
      TextMarks(r);
      NoMarksInOperators();
      CountBinaryMarks(DBOperations(l), ") AND (", DBOperations(r));
    case Or(l, r) =>
      TextMarks(l);
      TextMarks(r);
      NoMarksInOperators();
      CountBinaryMarks(DBOperations(l), ") OR (", DBOperations(r));
    case Not(v) =>
      TextMarks(v);
      CountNegationMarks(DBOperations(v));
  }

  lemma {:induction false} PlaceholdersOverValues(e: Expr)
    ensures PlaceholderCount(Shape(e)) == |AllValues(Leaves(e))| + PairCount(Leaves(e))
  {
    match e
    case Empty =>
    case Leaf(c) =>
      assert AllValues([c]) == ClauseValues(c) + AllValues([]) == ClauseValues(c);
      assert PairCount([c]) == if IsPair(c) then 1 else 0;
    case And(l, r) =>
      PlaceholdersOverValues(l);
      PlaceholdersOverValues(r);
      AllValuesConcat(Leaves(l), Leaves(r));
      PairCountConcat(Leaves(l), Leaves(r));
    case Or(l, r) =>
      PlaceholdersOverValues(l);
      PlaceholdersOverValues(r);
      AllValuesConcat(Leaves(l), Leaves(r));
      PairCountConcat(Leaves(l), Leaves(r));
    case Not(v) => PlaceholdersOverValues(v);
  }

  /**
   * Every placeholder of the text gets a value exactly when no two-placeholder operator is used;
   * otherwise one placeholder per such operator goes without.
   */
  lemma EveryMarkBoundExactlyWhen(e: Expr)
    requires ValidColumns(e)
    ensures CountMarks(DBOperations(e)) == |AllValues(Leaves(e))| + PairCount(Leaves(e))
    ensures CountMarks(DBOperations(e)) == |AllValues(Leaves(e))|
       <==> forall c :: c in Leaves(e) ==> !IsPair(c)
  {
    TextMarks(e);
    PlaceholdersOverValues(e);
    PairCountIsZeroWhen(Leaves(e));
  }

  lemma {:induction false} PairCountIsZeroWhen(cs: seq<Clause>)
    ensures PairCount(cs) == 0 <==> forall c :: c in cs ==> !IsPair(c)
  {
    if cs != [] {
      PairCountIsZeroWhen(cs[1..]);
      assert cs == [cs[0]] + cs[1..];
    }
  }

  /** The parameter numbers `first`, `first` + 1, ..., `count` of them. */
  function Numbers(first: int, count: nat): seq<int>
    decreases count
  {
    if count == 0 then [] else [first] + Numbers(first + 1, count - 1)
  }

  /** For each value in order, the number of the parameter it is bound to. */
  function BoundAt(cs: seq<Clause>, first: int): seq<int> {
    if cs == [] then []
    else
      var n := |ClauseValues(cs[0])|;
      Numbers(first, n) + BoundAt(cs[1..], first + n)
  }

  /** For each value in order, the number of the placeholder that its own clause's text holds for it. */
  function MeantFor(cs: seq<Clause>, first: int): seq<int> {
    if cs == [] then []
    else
      Numbers(first, |ClauseValues(cs[0])|)
      + MeantFor(cs[1..], first + ClauseForm(cs[0]).Placeholders())
  }

  /** After a clause with a two-placeholder operator no further value is bound. */
  predicate Aligned(cs: seq<Clause>) {
    cs == [] || (Aligned(cs[1..]) && (IsPair(cs[0]) ==> AllValues(cs[1..]) == []))
  }

  lemma {:induction false} SlotsDifferUnlessNone(cs: seq<Clause>, m: int, n: int)
    requires m < n
    ensures BoundAt(cs, m) == MeantFor(cs, n) <==> AllValues(cs) == []
  {
    if cs != [] {
      if ClauseValues(cs[0]) == [] {
        SlotsDifferUnlessNone(cs[1..], m, n);
        assert BoundAt(cs, m) == BoundAt(cs[1..], m);
        assert MeantFor(cs, n) == MeantFor(cs[1..], n);
      } else {
        assert BoundAt(cs, m)[0] == m && MeantFor(cs, n)[0] == n;
      }
    }
  }

  lemma NoValuesAligned(cs: seq<Clause>)
    requires AllValues(cs) == []
    ensures Aligned(cs) && PairCount(cs) == 0
  {
  }

  lemma PrefixCancels(p: seq<int>, a: seq<int>, b: seq<int>)
    ensures p + a == p + b <==> a == b
  {
    assert (p + a)[|p|..] == a && (p + b)[|p|..] == b;
  }

  lemma PlaceholdersOf(c: Clause)
    ensures ClauseForm(c).Placeholders() == |ClauseValues(c)| + (if IsPair(c) then 1 else 0)
  {
  }

  /** The values of the first clause always stand where they should; the others decide. */
  lemma SlotsUnfold(cs: seq<Clause>, first: int, next: int, after: int)
    requires cs != []
    requires next == first + |ClauseValues(cs[0])|
    requires after == if IsPair(cs[0]) then next + 1 else next
    ensures BoundAt(cs, first) == MeantFor(cs, first) <==> BoundAt(cs[1..], next) == MeantFor(cs[1..], after)
  {
    var n := |ClauseValues(cs[0])|;
    PlaceholdersOf(cs[0]);
    PrefixCancels(Numbers(first, n), BoundAt(cs[1..], next), MeantFor(cs[1..], after));
  }

  /** After a two-placeholder clause, values reach their placeholders only if there are none. */
  lemma PairDecides(cs: seq<Clause>, first: int)
    requires cs != [] && IsPair(cs[0])
    ensures BoundAt(cs, first) == MeantFor(cs, first) <==> Aligned(cs)
  {
    var next := first + |ClauseValues(cs[0])|;
    SlotsUnfold(cs, first, next, next + 1);
    SlotsDifferUnlessNone(cs[1..], next, next + 1);
    if AllValues(cs[1..]) == [] {
      NoValuesAligned(cs[1..]);
    }
  }

  /** Every value reaches the placeholder its clause holds for it exactly for aligned filters. */
  lemma {:induction false} ValuesReachTheirMarksExactlyWhen(cs: seq<Clause>, first: int)
    ensures BoundAt(cs, first) == MeantFor(cs, first) <==> Aligned(cs)
    decreases cs
  {
    if cs == [] {
    } else if IsPair(cs[0]) {
      PairDecides(cs, first);
    } else {
      var next := first + |ClauseValues(cs[0])|;
      SlotsUnfold(cs, first, next, next);
      ValuesReachTheirMarksExactlyWhen(cs[1..], next);
    }
  }
}
