/**
 * SQL search conditions, as section 8.12 of ISO/IEC 9075:1992 lays out their grammar:
 *
 *   search condition ::= boolean term { OR boolean term }
 *   boolean term     ::= boolean factor { AND boolean factor }
 *   boolean factor   ::= [ NOT ] boolean primary
 *   boolean primary  ::= predicate | ( search condition )
 *
 * together with the meaning of a condition whose placeholders are numbered from left to right.
 * Conditions are read by that grammar alone, whatever their nesting; of the predicates only those
 * the mapper emits are read, in its own spelling, each a column and a form with placeholders.
 */
module SqlGrammar {
  import opened FilterTree

  /** What stands between a column and its placeholders. */
  datatype Form =
    | Equals | NotEquals | LessThan | AtMost | GreaterThan | AtLeast
    | InList(count: nat)
    | NotInPair
    | Between
    | IsNull
  {
    function Placeholders(): nat {
      match this
      case InList(n) => n
      case NotInPair => 2
      case Between => 2
      case IsNull => 0
      case _ => 1
    }
  }

  /** One predicate: a column and a form. Its values come from the statement's parameters. */
  datatype Predicate = Predicate(column: string, form: Form)

  type Condition = Node<Predicate>

  datatype Parsed<+T> = Failed | Parsed(tree: T, rest: string)

  predicate IdentifierChar(c: char) {
    'a' <= c <= 'z' || 'A' <= c <= 'Z' || '0' <= c <= '9' || c == '_' || c == '.'
  }

  predicate Identifier(s: string) {
    s != "" && forall i :: 0 <= i < |s| ==> IdentifierChar(s[i])
  }

  /** The length of the identifier s starts with. */
  function IdentifierLength(s: string): (n: nat)
    ensures n <= |s|
    ensures forall i :: 0 <= i < n ==> IdentifierChar(s[i])
    ensures n < |s| ==> !IdentifierChar(s[n])
  {
    if s == "" || !IdentifierChar(s[0]) then 0 else 1 + IdentifierLength(s[1..])
  }

  /** The rest of a placeholder list, after n placeholders. */
  function ParseMoreMarks(n: nat, s: string): (r: Parsed<nat>)
    ensures r.Parsed? ==> |r.rest| < |s|
    decreases |s|
  {
    if ")" <= s then Parsed(n, s[1..])
    else if ", ?" <= s then ParseMoreMarks(n + 1, s[3..])
    else Failed
  }

  /** A parenthesised placeholder list, after its opening parenthesis. */
  function ParseMarks(s: string): (r: Parsed<nat>)
    ensures r.Parsed? ==> |r.rest| < |s|
  {
    if ")" <= s then Parsed(0, s[1..])
    else if "?" <= s then ParseMoreMarks(1, s[1..])
    else Failed
  }

  function ParseForm(s: string): (r: Parsed<Form>)
    ensures r.Parsed? ==> |r.rest| < |s|
  {
    if "= ?" <= s then Parsed(Equals, s[3..])
    else if "!= ?" <= s then Parsed(NotEquals, s[4..])
    else if "< ?" <= s then Parsed(LessThan, s[3..])
    else if "<= ?" <= s then Parsed(AtMost, s[4..])
    else if "> ?" <= s then Parsed(GreaterThan, s[3..])
    else if ">= ?" <= s then Parsed(AtLeast, s[4..])
    else if "IN (" <= s then
      match ParseMarks(s[4..])
      case Failed => Failed
      case Parsed(n, rest) => Parsed(InList(n), rest)
    else if "NOT IN (?, ?)" <= s then Parsed(NotInPair, s[13..])
    else if "BETWEEN ? AND ?" <= s then Parsed(Between, s[15..])
    else if "IS NULL" <= s then Parsed(IsNull, s[7..])
    else Failed
  }

  function ParsePredicate(s: string): (r: Parsed<Condition>)
    ensures r.Parsed? ==> |r.rest| < |s|
  {
    var n := IdentifierLength(s);
    if n == 0 || n == |s| || s[n] != ' ' then Failed
    else
      match ParseForm(s[n + 1..])
      case Failed => Failed
      case Parsed(form, rest) => Parsed(Leaf(Predicate(s[..n], form)), rest)
  }

  function ParseCondition(s: string): (r: Parsed<Condition>)
    ensures r.Parsed? ==> |r.rest| < |s|
    decreases |s|, 5
  {
    match ParseTerm(s)
    case Failed => Failed
    case Parsed(t, rest) => ParseOrTail(t, rest)
  }

  function ParseOrTail(left: Condition, s: string): (r: Parsed<Condition>)
    ensures r.Parsed? ==> |r.rest| <= |s|
    decreases |s|, 4
  {
    if " OR " <= s then
      match ParseTerm(s[4..])
      case Failed => Failed
      case Parsed(t, rest) => ParseOrTail(Or(left, t), rest)
    else Parsed(left, s)
  }

  function ParseTerm(s: string): (r: Parsed<Condition>)
    ensures r.Parsed? ==> |r.rest| < |s|
    decreases |s|, 3
  {
    match ParseFactor(s)
    case Failed => Failed
    case Parsed(t, rest) => ParseAndTail(t, rest)
  }

  function ParseAndTail(left: Condition, s: string): (r: Parsed<Condition>)
    ensures r.Parsed? ==> |r.rest| <= |s|
    decreases |s|, 2
  {
    if " AND " <= s then
      match ParseFactor(s[5..])
      case Failed => Failed
      case Parsed(t, rest) => ParseAndTail(And(left, t), rest)
    else Parsed(left, s)
  }

  function ParseFactor(s: string): (r: Parsed<Condition>)
    ensures r.Parsed? ==> |r.rest| < |s|
    decreases |s|, 1
  {
    if "NOT " <= s then
      match ParsePrimary(s[4..])
      case Failed => Failed
      case Parsed(t, rest) => Parsed(Not(t), rest)
    else ParsePrimary(s)
  }

  function ParsePrimary(s: string): (r: Parsed<Condition>)
    ensures r.Parsed? ==> |r.rest| < |s|
    decreases |s|, 0
  {
    if "(" <= s then
      match ParseCondition(s[1..])
      case Failed => Failed
      case Parsed(t, rest) => if ")" <= rest then Parsed(t, rest[1..]) else Failed
    else ParsePredicate(s)
  }

  /** How many placeholders a condition holds. */
  function PlaceholderCount(c: Condition): nat {
    match c
    case Empty => 0
    case Leaf(p) => p.form.Placeholders()
    case And(l, r) => PlaceholderCount(l) + PlaceholderCount(r)
    case Or(l, r) => PlaceholderCount(l) + PlaceholderCount(r)
    case Not(v) => PlaceholderCount(v)
  }

  /** The value of parameter number i; a parameter nobody bound reads as null. */
  function Parameter<V>(params: map<int, V>, i: int, unset: V): V {
    if i in params then params[i] else unset
  }

  function Parameters<V>(params: map<int, V>, first: int, count: nat, unset: V): (vs: seq<V>)
    ensures |vs| == count
    ensures forall k :: 0 <= k < count ==> vs[k] == Parameter(params, first + k, unset)
  {
    seq(count, k requires 0 <= k < count => Parameter(params, first + k, unset))
  }

  /**
   * The truth of a condition whose leftmost placeholder is number `first`. What a predicate says
   * of the row at hand, given the values of its placeholders, is the caller's `holds`.
   */
  function Truth3<V>(c: Condition, params: map<int, V>, first: int, unset: V,
                     holds: (Predicate, seq<V>) -> Truth): Truth
  {
    match c
    case Empty => True
    case Leaf(p) => holds(p, Parameters(params, first, p.form.Placeholders(), unset))
    case And(l, r) =>
      And3(Truth3(l, params, first, unset, holds),
           Truth3(r, params, first + PlaceholderCount(l), unset, holds))
    case Or(l, r) =>
      Or3(Truth3(l, params, first, unset, holds),
          Truth3(r, params, first + PlaceholderCount(l), unset, holds))
    case Not(v) => Not3(Truth3(v, params, first, unset, holds))
  }

  /** The truth of a WHERE text: no text accepts every row, malformed text has no meaning. */
  function TextTruth<V>(text: string, params: map<int, V>, unset: V,
                        holds: (Predicate, seq<V>) -> Truth): Parsed<Truth>
  {
    if text == "" then Parsed(True, "")
    else
      match ParseCondition(text)
      case Failed => Failed
      case Parsed(c, rest) =>
        if rest == "" then Parsed(Truth3(c, params, 1, unset, holds), "") else Failed
  }
}
