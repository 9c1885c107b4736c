/** What a WHERE text means once its values are bound, and what its filter means. */
module WhereMeaning {
  import opened FilterTree
  import opened SqlGrammar
  import opened WhereExpr
  import opened WhereBinding

  /** A predicate with the values it is asked about. */
  datatype Question = Question(asked: Predicate, values: seq<Value>)

  /** What a database is asked when a condition runs with parameters from `first` on. */
  function Executed(c: Condition, params: map<int, Value>, first: int): Node<Question> {
    match c
    case Empty => Empty
    case Leaf(p) => Leaf(Question(p, Parameters(params, first, p.form.Placeholders(), Null)))
    case And(l, r) => And(Executed(l, params, first), Executed(r, params, first + PlaceholderCount(l)))
    case Or(l, r) => Or(Executed(l, params, first), Executed(r, params, first + PlaceholderCount(l)))
    case Not(v) => Not(Executed(v, params, first))
  }

  /** What a filter asks: of each clause, its column and operator with its own values. */
  function Asked(e: Expr): Node<Question> {
    match e
    case Empty => Empty
    case Leaf(c) => Leaf(Question(Predicate(c.column.FullName(), ClauseForm(c)), ClauseValues(c)))
    case And(l, r) => And(Asked(l), Asked(r))
    case Or(l, r) => Or(Asked(l), Asked(r))
    case Not(v) => Not(Asked(v))
  }

  /** The truth of questions, when `holds` says what a predicate with given values says. */
  function Answer(q: Node<Question>, holds: (Predicate, seq<Value>) -> Truth): Truth {
    Eval(q, (l: Question) => holds(l.asked, l.values))
  }

  /** What the filter says of a row. */
  function Meaning(e: Expr, holds: (Predicate, seq<Value>) -> Truth): Truth {
    Answer(Asked(e), holds)
  }

  /** A condition's truth under parameters is the answer to what it asks. */
  lemma {:induction false} ExecutedAnswers(c: Condition, params: map<int, Value>, first: int,
                                           holds: (Predicate, seq<Value>) -> Truth)
    ensures Truth3(c, params, first, Null, holds) == Answer(Executed(c, params, first), holds)
  {
    match c
    case Empty =>
    case Leaf(_) =>
    case And(l, r) =>
      ExecutedAnswers(l, params, first, holds);
      ExecutedAnswers(r, params, first + PlaceholderCount(l), holds);
    case Or(l, r) =>
      ExecutedAnswers(l, params, first, holds);
      ExecutedAnswers(r, params, first + PlaceholderCount(l), holds);
    case Not(v) => ExecutedAnswers(v, params, first, holds);
  }

  // --------------------------------------------------------------------------- parameters

  /** The parameters from `first` on carry the values; a final pair's second parameter is unset. */
  predicate BoundTo(params: map<int, Value>, first: int, values: seq<Value>, pair: bool) {
    && (forall k :: 0 <= k < |values| ==> Parameter(params, first + k, Null) == values[k])
    && (pair ==> Parameter(params, first + |values|, Null) == Null)
  }

  lemma {:induction false} AlignedConcat(a: seq<Clause>, b: seq<Clause>)
    ensures Aligned(a + b) <==> Aligned(a) && Aligned(b) && (PairCount(a) > 0 ==> AllValues(b) == [])
  {
    if a == [] {
      assert a + b == b;
    } else {
      assert (a + b)[1..] == a[1..] + b;
      AlignedConcat(a[1..], b);
      AllValuesConcat(a[1..], b);
    }
  }

  lemma BoundToSplits(params: map<int, Value>, first: int, next: int,
                      va: seq<Value>, vb: seq<Value>, pa: bool, pb: bool)
    requires BoundTo(params, first, va + vb, pa || pb)
    requires pa ==> vb == [] && !pb
    requires !pa ==> next == first + |va|
    ensures BoundTo(params, first, va, pa)
    ensures BoundTo(params, next, vb, pb)
  {
    forall k | 0 <= k < |va|
      ensures Parameter(params, first + k, Null) == va[k]
    {
      assert (va + vb)[k] == va[k];
    }
    forall k | 0 <= k < |vb|
      ensures Parameter(params, next + k, Null) == vb[k]
    {
      assert (va + vb)[|va| + k] == vb[k];
      assert first + (|va| + k) == next + k;
    }
  }

  lemma ClausesShareParameters(a: seq<Clause>, b: seq<Clause>, params: map<int, Value>, first: int, next: int)
    requires Aligned(a + b) && BoundTo(params, first, AllValues(a + b), PairCount(a + b) > 0)
    requires next == first + |AllValues(a)| + PairCount(a)
    ensures Aligned(a) && Aligned(b)
    ensures BoundTo(params, first, AllValues(a), PairCount(a) > 0)
    ensures BoundTo(params, next, AllValues(b), PairCount(b) > 0)
  {
    AllValuesConcat(a, b);
    PairCountConcat(a, b);
    AlignedConcat(a, b);
    if PairCount(a) > 0 {
      NoValuesAligned(b);
    }
    BoundToSplits(params, first, next, AllValues(a), AllValues(b), PairCount(a) > 0, PairCount(b) > 0);
  }

  /** How an aligned pair of operands divides the parameters between them. */
  lemma OperandsShareParameters(l: Expr, r: Expr, params: map<int, Value>, first: int)
    requires Aligned(Leaves(l) + Leaves(r))
    requires BoundTo(params, first, AllValues(Leaves(l) + Leaves(r)), PairCount(Leaves(l) + Leaves(r)) > 0)
    ensures Aligned(Leaves(l)) && Aligned(Leaves(r))
    ensures BoundTo(params, first, AllValues(Leaves(l)), PairCount(Leaves(l)) > 0)
    ensures BoundTo(params, first + PlaceholderCount(Shape(l)), AllValues(Leaves(r)), PairCount(Leaves(r)) > 0)
  {
    PlaceholdersOverValues(l);
    ClausesShareParameters(Leaves(l), Leaves(r), params, first, first + PlaceholderCount(Shape(l)));
  }

  /** The parameters a fresh statement carries after `Bind`. */
  function Bound(e: Expr): map<int, Value> {
    BindFrom(map[], 1, AllValues(Leaves(e)))
  }

  lemma BoundCarriesValues(e: Expr)
    ensures BoundTo(Bound(e), 1, AllValues(Leaves(e)), true)
  {
    var values := AllValues(Leaves(e));
    forall k | 0 <= k < |values|
      ensures Parameter(Bound(e), 1 + k, Null) == values[k]
    {
      BindFromSets(map[], 1, values, 1 + k);
    }
    BindFromSets(map[], 1, values, 1 + |values|);
  }

  /** A single clause's placeholders carry its own values, and null for a pair's second placeholder. */
  lemma OwnParameters(c: Clause, params: map<int, Value>, first: int)
    requires BoundTo(params, first, ClauseValues(c), IsPair(c))
    ensures Parameters(params, first, ClauseForm(c).Placeholders(), Null) == PaddedValues(c)
  {
    PlaceholdersOf(c);
  }

  lemma OneClause(c: Clause)
    ensures AllValues([c]) == ClauseValues(c)
    ensures PairCount([c]) == if IsPair(c) then 1 else 0
  {
    assert AllValues([c]) == ClauseValues(c) + AllValues([]);
  }

  // --------------------------------------------------------------------------- what runs

  /** A clause's values, with null for the second placeholder of a two-placeholder operator. */
  function PaddedValues(c: Clause): seq<Value> {
    ClauseValues(c) + if IsPair(c) then [Null] else []
  }

  /** What a filter runs as when no clause takes another's value. */
  function Padded(e: Expr): Node<Question> {
    match e
    case Empty => Empty
    case Leaf(c) => Leaf(Question(Predicate(c.column.FullName(), ClauseForm(c)), PaddedValues(c)))
    case And(l, r) => And(Padded(l), Padded(r))
    case Or(l, r) => Or(Padded(l), Padded(r))
    case Not(v) => Not(Padded(v))
  }

  /** An aligned filter's text runs each clause with its own values, a final pair's second one null. */
  lemma {:induction false} ShapeRuns(e: Expr, params: map<int, Value>, first: int)
    requires Aligned(Leaves(e))
    requires BoundTo(params, first, AllValues(Leaves(e)), PairCount(Leaves(e)) > 0)
    ensures Executed(Shape(e), params, first) == Padded(e)
    decreases e
  {
    match e
    case Empty =>
    case Leaf(c) =>
      OneClause(c);
      OwnParameters(c, params, first);
    case And(l, r) =>
      OperandsShareParameters(l, r, params, first);
      ShapeRuns(l, params, first);
      ShapeRuns(r, params, first + PlaceholderCount(Shape(l)));
    case Or(l, r) =>
      OperandsShareParameters(l, r, params, first);
      ShapeRuns(l, params, first);
      ShapeRuns(r, params, first + PlaceholderCount(Shape(l)));
    case Not(v) =>
      ShapeRuns(v, params, first);
  }

  /** No clause has a two-placeholder operator. */
  predicate NoPairs(e: Expr) {
    forall c :: c in Leaves(e) ==> !IsPair(c)
  }

  lemma NoPairsBelow(l: Expr, r: Expr)
    ensures (forall c :: c in Leaves(l) + Leaves(r) ==> !IsPair(c)) <==> NoPairs(l) && NoPairs(r)
  {
  }

  lemma {:induction false} NoPairsAligned(cs: seq<Clause>)
    requires forall c :: c in cs ==> !IsPair(c)
    ensures Aligned(cs)
  {
    if cs != [] {
      NoPairsAligned(cs[1..]);
    }
  }

  /** Padding makes no difference exactly when there is nothing to pad. */
  lemma {:induction false} PaddedIsAskedExactlyWhen(e: Expr)
    ensures Padded(e) == Asked(e) <==> NoPairs(e)
  {
    match e
    case Empty =>
    case Leaf(c) =>
      assert Leaves(e) == [c] && c in Leaves(e);
      assert |PaddedValues(c)| == |ClauseValues(c)| + (if IsPair(c) then 1 else 0);
      assert ClauseValues(c) + [] == ClauseValues(c);
    case And(l, r) =>
      NoPairsBelow(l, r);
      PaddedIsAskedExactlyWhen(l);
      PaddedIsAskedExactlyWhen(r);
    case Or(l, r) =>
      NoPairsBelow(l, r);
      PaddedIsAskedExactlyWhen(l);
      PaddedIsAskedExactlyWhen(r);
    case Not(v) => PaddedIsAskedExactlyWhen(v);
  }

  /** Whatever the parameters, a two-placeholder clause is not asked with its one value. */
  lemma {:induction false} PairShows(e: Expr, params: map<int, Value>, first: int)
    requires Executed(Shape(e), params, first) == Asked(e)
    ensures NoPairs(e)
    decreases e
  {
    match e
    case Empty =>
    case Leaf(c) => PlaceholdersOf(c);
    case And(l, r) =>
      PairShows(l, params, first);
      PairShows(r, params, first + PlaceholderCount(Shape(l)));
      NoPairsBelow(l, r);
    case Or(l, r) =>
      PairShows(l, params, first);
      PairShows(r, params, first + PlaceholderCount(Shape(l)));
      NoPairsBelow(l, r);
    case Not(v) => PairShows(v, params, first);
  }

  lemma AlignedRunsPadded(e: Expr)
    requires Aligned(Leaves(e))
    ensures Executed(Shape(e), Bound(e), 1) == Padded(e)
  {
    BoundCarriesValues(e);
    ShapeRuns(e, Bound(e), 1);
  }

  /**
   * With the values `Bind` gives it a filter's text asks, predicate by predicate and value by value,
   * what the filter asks, exactly when no clause has a two-placeholder operator.
   */
  lemma RunsAsAskedExactlyWhen(e: Expr)
    ensures Executed(Shape(e), Bound(e), 1) == Asked(e) <==> NoPairs(e)
  {
    if NoPairs(e) {
      NoPairsAligned(Leaves(e));
      AlignedRunsPadded(e);
      PaddedIsAskedExactlyWhen(e);
    }
    if Executed(Shape(e), Bound(e), 1) == Asked(e) {
      PairShows(e, Bound(e), 1);
    }
  }

  // --------------------------------------------------------------------------- the text

  lemma TextRuns(e: Expr, holds: (Predicate, seq<Value>) -> Truth)
    requires WellFormed(e) && ValidColumns(e)
    ensures TextTruth(DBOperations(e), Bound(e), Null, holds)
         == Parsed(Answer(Executed(Shape(e), Bound(e), 1), holds), "")
  {
    if !e.Empty? {
      TextParses(e, "");
      assert DBOperations(e) + "" == DBOperations(e);
      ExecutedAnswers(Shape(e), Bound(e), 1, holds);
    }
  }

  /**
   * Executing the text of a filter with the values `Bind` gives it accepts exactly the rows the
   * filter means, in three-valued logic, whatever the predicates mean, for every filter without
   * two-placeholder operators.
   */
  lemma TextMeansFilter(e: Expr, holds: (Predicate, seq<Value>) -> Truth)
    requires WellFormed(e) && ValidColumns(e) && NoPairs(e)
    ensures TextTruth(DBOperations(e), Bound(e), Null, holds) == Parsed(Meaning(e, holds), "")
  {
    TextRuns(e, holds);
    RunsAsAskedExactlyWhen(e);
  }

  /** With a two-placeholder operator in the only clause that may have one, its second value is null. */
  lemma FinalPairRunsWithNull(e: Expr, holds: (Predicate, seq<Value>) -> Truth)
    requires WellFormed(e) && ValidColumns(e) && Aligned(Leaves(e))
    ensures TextTruth(DBOperations(e), Bound(e), Null, holds) == Parsed(Answer(Padded(e), holds), "")
  {
    TextRuns(e, holds);
    AlignedRunsPadded(e);
  }

  // --------------------------------------------------------------------------- a failing filter

  lemma TwoValues(a: Clause, b: Clause)
    ensures AllValues([a, b]) == ClauseValues(a) + ClauseValues(b)
  {
    AllValuesConcat([a], [b]);
    assert [a] + [b] == [a, b];
    assert AllValues([a]) == ClauseValues(a) + AllValues([]);
    assert AllValues([b]) == ClauseValues(b) + AllValues([]);
  }

  function BetweenThenEqual(x: Column, v: Value, y: Column, w: Value): Expr {
    And(Leaf(WhereClause(x, v, Operator.Between)), Leaf(WhereClause(y, w, Equal)))
  }

  lemma BetweenThenEqualParts(x: Column, v: Value, y: Column, w: Value)
    ensures var e := BetweenThenEqual(x, v, y, w);
      && AllValues(Leaves(e)) == [v, w] && Solid(e)
      && Shape(e) == And(Leaf(Predicate(x.FullName(), Form.Between)), Leaf(Predicate(y.FullName(), Equals)))
  {
    var first, second := WhereClause(x, v, Operator.Between), WhereClause(y, w, Equal);
    assert Leaves(BetweenThenEqual(x, v, y, w)) == [first, second];
    TwoValues(first, second);
  }

  lemma BetweenThenEqualRuns(px: Predicate, py: Predicate, v: Value, w: Value)
    requires px.form == Form.Between && py.form == Equals
    ensures Executed(And(Leaf(px), Leaf(py)), BindFrom(map[], 1, [v, w]), 1)
         == And(Leaf(Question(px, [v, w])), Leaf(Question(py, [Null])))
  {
    var params := BindFrom(map[], 1, [v, w]);
    BindFromSets(map[], 1, [v, w], 1);
    BindFromSets(map[], 1, [v, w], 2);
    BindFromSets(map[], 1, [v, w], 3);
    assert Parameters(params, 1, 2, Null) == [v, w];
    assert Parameters(params, 3, 1, Null) == [Null];
  }

  lemma AnswerBoth(a: Question, b: Question, holds: (Predicate, seq<Value>) -> Truth)
    ensures Answer(And(Leaf(a), Leaf(b)), holds) == And3(holds(a.asked, a.values), holds(b.asked, b.values))
  {
    assert Answer(Leaf(a), holds) == holds(a.asked, a.values);
    assert Answer(Leaf(b), holds) == holds(b.asked, b.values);
  }

  /**
   * A two-placeholder operator before another clause takes that clause's value and leaves it
   * without one: `x BETWEEN ? AND ?` made from v and then `y = ?` made from w run as
   * `x BETWEEN v AND w` and `y = NULL`.
   */
  lemma PairOperatorTakesNextValue(x: Column, v: Value, y: Column, w: Value,
                                   holds: (Predicate, seq<Value>) -> Truth)
    requires x.Valid() && y.Valid()
    ensures var e := BetweenThenEqual(x, v, y, w);
            TextTruth(DBOperations(e), Bound(e), Null, holds)
            == Parsed(And3(holds(Predicate(x.FullName(), Form.Between), [v, w]),
                           holds(Predicate(y.FullName(), Equals), [Null])), "")
  {
    TextRuns(BetweenThenEqual(x, v, y, w), holds);
    BetweenThenEqualParts(x, v, y, w);
    var px, py := Predicate(x.FullName(), Form.Between), Predicate(y.FullName(), Equals);
    BetweenThenEqualRuns(px, py, v, w);
    AnswerBoth(Question(px, [v, w]), Question(py, [Null]), holds);
  }

  /** The filter itself asks each clause about its own value only. */
  lemma BetweenThenEqualMeans(x: Column, v: Value, y: Column, w: Value,
                              holds: (Predicate, seq<Value>) -> Truth)
    ensures Meaning(BetweenThenEqual(x, v, y, w), holds)
         == And3(holds(Predicate(x.FullName(), Form.Between), [v]),
                 holds(Predicate(y.FullName(), Equals), [w]))
  {
    var p, q := Question(Predicate(x.FullName(), Form.Between), [v]), Question(Predicate(y.FullName(), Equals), [w]);
    assert Asked(Leaf(WhereClause(x, v, Operator.Between))) == Leaf(p);
    assert Asked(Leaf(WhereClause(y, w, Equal))) == Leaf(q);
    AnswerBoth(p, q, holds);
  }
}
