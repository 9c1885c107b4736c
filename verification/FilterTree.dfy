/**
 * Filter expression trees (src/filter): a leaf, a conjunction, a disjunction, a negation,
 * or the empty filter that accepts everything.
 */
module FilterTree {

  datatype Node<Leaf> =
    | Empty
    | Leaf(leaf: Leaf)
    | And(left: Node<Leaf>, right: Node<Leaf>)
    | Or(left: Node<Leaf>, right: Node<Leaf>)
    | Not(operand: Node<Leaf>)

  /** Three-valued truth, as SQL search conditions use it. */
  datatype Truth = False | Unknown | True

  function And3(a: Truth, b: Truth): Truth {
    if a == False || b == False then False
    else if a == True && b == True then True
    else Unknown
  }

  function Not3(a: Truth): Truth {
    match a
    case False => True
    case Unknown => Unknown
    case True => False
  }

  function Or3(a: Truth, b: Truth): Truth {
    if a == True || b == True then True
    else if a == False && b == False then False
    else Unknown
  }

  /** No empty filter anywhere in the tree. */
  predicate Solid<L>(t: Node<L>) {
    match t
    case Empty => false
    case Leaf(_) => true
    case And(l, r) => Solid(l) && Solid(r)
    case Or(l, r) => Solid(l) && Solid(r)
    case Not(v) => Solid(v)
  }

  /** The empty filter may only be the whole filter. */
  predicate WellFormed<L>(t: Node<L>) {
    t.Empty? || Solid(t)
  }

  /** The truth of a tree under a truth for its leaves; the empty filter accepts everything. */
  function Eval<L>(t: Node<L>, leaf: L -> Truth): Truth {
    match t
    case Empty => True
    case Leaf(l) => leaf(l)
    case And(l, r) => And3(Eval(l, leaf), Eval(r, leaf))
    case Or(l, r) => Or3(Eval(l, leaf), Eval(r, leaf))
    case Not(v) => Not3(Eval(v, leaf))
  }

  function MakeAnd<L>(left: Node<L>, right: Node<L>): Node<L> {
    if left.Empty? then right
    else if right.Empty? then left
    else And(left, right)
  }

  function MakeOr<L>(left: Node<L>, right: Node<L>): Node<L> {
    if left.Empty? then right
    else if right.Empty? then left
    else Or(left, right)
  }

  function MakeNot<L>(operand: Node<L>): Node<L> {
    if operand.Empty? then operand else Not(operand)
  }

  /** A program that builds a filter with the three operators, from leaves and empty filters. */
  datatype Build<L> =
    | Start
    | Take(leaf: L)
    | Both(a: Build<L>, b: Build<L>)
    | Either(a: Build<L>, b: Build<L>)
    | Negate(a: Build<L>)

  function Run<L>(b: Build<L>): Node<L> {
    match b
    case Start => Empty
    case Take(l) => Leaf(l)
    case Both(x, y) => MakeAnd(Run(x), Run(y))
    case Either(x, y) => MakeOr(Run(x), Run(y))
    case Negate(x) => MakeNot(Run(x))
  }

  /** Whatever is built with the operators never hides an empty filter below the root. */
  lemma {:induction false} BuiltTreesAreWellFormed<L>(b: Build<L>)
    ensures WellFormed(Run(b))
  {
    match b
    case Start =>
    case Take(_) =>
    case Both(x, y) => BuiltTreesAreWellFormed(x); BuiltTreesAreWellFormed(y);
    case Either(x, y) => BuiltTreesAreWellFormed(x); BuiltTreesAreWellFormed(y);
    case Negate(x) => BuiltTreesAreWellFormed(x);
  }

  /** The conjunction operator means conjunction on every pair of filters, empty ones included. */
  lemma MakeAndMeansAnd<L>(l: Node<L>, r: Node<L>, leaf: L -> Truth)
    ensures Eval(MakeAnd(l, r), leaf) == And3(Eval(l, leaf), Eval(r, leaf))
  {
  }

  /** All leaves unknown: no filter but the empty one can accept. */
  lemma {:induction false} UnknownThroughout<L>(t: Node<L>, leaf: L -> Truth)
    requires Solid(t) && forall l :: leaf(l) == Unknown
    ensures Eval(t, leaf) == Unknown
  {
    match t
    case Leaf(_) =>
    case And(l, r) =>
      UnknownThroughout(l, leaf);
      UnknownThroughout(r, leaf);
    case Or(l, r) =>
      UnknownThroughout(l, leaf);
      UnknownThroughout(r, leaf);
    case Not(v) => UnknownThroughout(v, leaf);
  }

  /** The disjunction operator means disjunction, whatever the leaves say. */
  ghost predicate MeansOr<L(!new)>(l: Node<L>, r: Node<L>) {
    forall leaf: L -> Truth :: Eval(MakeOr(l, r), leaf) == Or3(Eval(l, leaf), Eval(r, leaf))
  }

  /**
   * The empty filter accepts everything, but as one of two operands it disappears: the result is
   * the other operand, which does not accept a row whose leaves are all unknown.
   */
  lemma DroppedOperandShows<L(!new)>(l: Node<L>, r: Node<L>)
    requires WellFormed(l) && WellFormed(r) && l.Empty? != r.Empty?
    ensures var unknown := (x: L) => Unknown;
      && Eval(MakeOr(l, r), unknown) == Unknown
      && Or3(Eval(l, unknown), Eval(r, unknown)) == True
  {
    UnknownThroughout(if l.Empty? then r else l, (x: L) => Unknown);
  }

  /** The disjunction operator means disjunction exactly when both operands are empty or neither is. */
  lemma MakeOrMeansOrExactlyWhen<L(!new)>(l: Node<L>, r: Node<L>)
    requires WellFormed(l) && WellFormed(r)
    ensures MeansOr(l, r) <==> (l.Empty? <==> r.Empty?)
  {
    if l.Empty? != r.Empty? {
      var unknown := (x: L) => Unknown;
      DroppedOperandShows(l, r);
      assert Eval(MakeOr(l, r), unknown) != Or3(Eval(l, unknown), Eval(r, unknown));
    }
  }

  /** The negation operator means negation, whatever the leaves say. */
  ghost predicate MeansNot<L(!new)>(v: Node<L>) {
    forall leaf: L -> Truth :: Eval(MakeNot(v), leaf) == Not3(Eval(v, leaf))
  }

  /** The negation operator means negation on every filter but the empty one, which it leaves accepting. */
  lemma MakeNotMeansNotExactlyWhen<L(!new)>(v: Node<L>)
    ensures MeansNot(v) <==> !v.Empty?
    ensures v.Empty? ==> MakeNot(v).Empty?
  {
    if v.Empty? {
      var unknown := (x: L) => Unknown;
      assert Eval(MakeNot(v), unknown) != Not3(Eval(v, unknown));
    }
  }

  /** Negated or not, the empty filter accepts everything. */
  lemma NegatedEmptyAccepts<L>(leaf: L -> Truth)
    ensures Eval(MakeNot(Empty), leaf) == Eval(Empty, leaf) == True
  {
  }

  // ------------------------------------------------------------------------ whole programs

  /** The leaves of a tree from left to right. */
  function Leaves<L>(t: Node<L>): seq<L> {
    match t
    case Empty => []
    case Leaf(l) => [l]
    case And(l, r) => Leaves(l) + Leaves(r)
    case Or(l, r) => Leaves(l) + Leaves(r)
    case Not(v) => Leaves(v)
  }

  /** The leaves a program takes, in the order it takes them. */
  function Taken<L>(b: Build<L>): seq<L> {
    match b
    case Start => []
    case Take(l) => [l]
    case Both(x, y) => Taken(x) + Taken(y)
    case Either(x, y) => Taken(x) + Taken(y)
    case Negate(x) => Taken(x)
  }

  /** What a program says, operator by operator, with empty filters accepting everything. */
  function Denoted<L>(b: Build<L>, leaf: L -> Truth): Truth {
    match b
    case Start => True
    case Take(l) => leaf(l)
    case Both(x, y) => And3(Denoted(x, leaf), Denoted(y, leaf))
    case Either(x, y) => Or3(Denoted(x, leaf), Denoted(y, leaf))
    case Negate(x) => Not3(Denoted(x, leaf))
  }

  /** No disjunction of something with nothing, and no negation of nothing. */
  predicate Sensible<L>(b: Build<L>) {
    match b
    case Start => true
    case Take(_) => true
    case Both(x, y) => Sensible(x) && Sensible(y)
    case Either(x, y) => Sensible(x) && Sensible(y) && (Taken(x) == [] <==> Taken(y) == [])
    case Negate(x) => Sensible(x) && Taken(x) != []
  }

  /** The program takes no empty filter. */
  predicate TakesNoEmpty<L>(b: Build<L>) {
    match b
    case Start => false
    case Take(_) => true
    case Both(x, y) => TakesNoEmpty(x) && TakesNoEmpty(y)
    case Either(x, y) => TakesNoEmpty(x) && TakesNoEmpty(y)
    case Negate(x) => TakesNoEmpty(x)
  }

  lemma {:induction false} NoEmptyIsSensible<L>(b: Build<L>)
    requires TakesNoEmpty(b)
    ensures Sensible(b) && Taken(b) != []
  {
    match b
    case Take(_) =>
    case Both(x, y) => NoEmptyIsSensible(x); NoEmptyIsSensible(y);
    case Either(x, y) => NoEmptyIsSensible(x); NoEmptyIsSensible(y);
    case Negate(x) => NoEmptyIsSensible(x);
  }

  lemma {:induction false} SolidHasLeaves<L>(t: Node<L>)
    requires Solid(t)
    ensures Leaves(t) != []
  {
    match t
    case Leaf(_) =>
    case And(l, _) => SolidHasLeaves(l);
    case Or(l, _) => SolidHasLeaves(l);
    case Not(v) => SolidHasLeaves(v);
  }

  /** The filter a program builds holds all leaves it takes, in that order, and is empty if it takes none. */
  lemma {:induction false} BuiltKeepsLeaves<L>(b: Build<L>)
    ensures Leaves(Run(b)) == Taken(b)
    ensures Run(b).Empty? <==> Taken(b) == []
  {
    match b {
      case Start =>
      case Take(_) =>
      case Both(x, y) => BuiltKeepsLeaves(x); BuiltKeepsLeaves(y);
      case Either(x, y) => BuiltKeepsLeaves(x); BuiltKeepsLeaves(y);
      case Negate(x) => BuiltKeepsLeaves(x);
    }
    BuiltTreesAreWellFormed(b);
    if Solid(Run(b)) {
      SolidHasLeaves(Run(b));
    }
  }

  /** A sensible program builds a filter that says what the program says. */
  lemma {:induction false} BuiltMeansProgram<L>(b: Build<L>, leaf: L -> Truth)
    requires Sensible(b)
    ensures Eval(Run(b), leaf) == Denoted(b, leaf)
  {
    match b
    case Start =>
    case Take(_) =>
    case Both(x, y) =>
      BuiltMeansProgram(x, leaf);
      BuiltMeansProgram(y, leaf);
    case Either(x, y) =>
      BuiltMeansProgram(x, leaf);
      BuiltMeansProgram(y, leaf);
      BuiltKeepsLeaves(x);
      BuiltKeepsLeaves(y);
    case Negate(x) =>
      BuiltMeansProgram(x, leaf);
      BuiltKeepsLeaves(x);
  }
}
