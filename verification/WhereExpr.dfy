/** WHERE clauses and WHERE expressions (src/orm): their SQL text and the binding of their values. */
module WhereExpr {
  import opened FilterTree
  import opened SqlGrammar

  /** What a statement parameter can hold. */
  datatype Value = Null | Int64(i: int) | Real(r: real) | Text(t: string)

  datatype Operator =
    | Equal | NotEqual | Less | LessOrEqual | Greater | GreaterOrEqual | In | NotIn | Between

  /** A table column. Table and column names are plain SQL identifiers without dots. */
  datatype Column = Column(table: string, name: string) {
    predicate Valid() {
      Identifier(table) && Identifier(name)
    }

    function FullName(): string {
      table + "." + name
    }
  }

  predicate Word(s: string) {
    s != "" && forall i :: 0 <= i < |s| ==> 'a' <= s[i] <= 'z' || s[i] == '_'
  }

  /** Lower-case words with underscores make valid columns. */
  lemma WordsMakeColumns(c: Column)
    ensures Word(c.table) && Word(c.name) ==> c.Valid()
  {
  }

  datatype Clause =
    | WhereClause(column: Column, value: Value, op: Operator)
    | InClause(column: Column, values: seq<Value>)
    | NullClause(column: Column)

  type Expr = Node<Clause>

  function WhereOperatorStr(op: Operator): string {
    match op
    case Equal => "= ?"
    case NotEqual => "!= ?"
    case Less => "< ?"
    case LessOrEqual => "<= ?"
    case Greater => "> ?"
    case GreaterOrEqual => ">= ?"
    case In => "IN (?, ?)"
    case NotIn => "NOT IN (?, ?)"
    case Between => "BETWEEN ? AND ?"
  }

  /** n further placeholders of a list. */
  function MoreMarks(n: nat): string {
    if n == 0 then "" else ", ?" + MoreMarks(n - 1)
  }

  /** n placeholders separated by commas. */
  function Marks(n: nat): string {
    if n == 0 then "" else "?" + MoreMarks(n - 1)
  }

  lemma {:induction false} MoreMarksAppend(n: nat)
    ensures MoreMarks(n) + ", ?" == MoreMarks(n + 1)
  {
    if n == 0 {
      assert MoreMarks(1) == ", ?" + MoreMarks(0);
    } else {
      MoreMarksAppend(n - 1);
      calc {
        MoreMarks(n) + ", ?";
        ", ?" + MoreMarks(n - 1) + ", ?";
        ", ?" + (MoreMarks(n - 1) + ", ?");
        ", ?" + MoreMarks(n);
        MoreMarks(n + 1);
      }
    }
  }

  /** The placeholder list of an IN clause, built one placeholder at a time. */
  method BuildMarks(count: nat) returns (placeholders: string)
    ensures placeholders == Marks(count)
  {
    placeholders := "";
    for i := 0 to count
      invariant placeholders == Marks(i)
    {
      if i > 0 {
        MoreMarksAppend(i - 1);
        assert placeholders + ", " + "?" == "?" + (MoreMarks(i - 1) + ", ?");
        placeholders := placeholders + ", ";
      }
      placeholders := placeholders + "?";
    }
  }

  function ClauseText(c: Clause): string {
    match c
    case WhereClause(column, _, op) => column.FullName() + " " + WhereOperatorStr(op)
    case InClause(column, values) => column.FullName() + " IN (" + Marks(|values|) + ")"
    case NullClause(column) => column.FullName() + " IS NULL"
  }

  /** The text of a whole expression. */
  function DBOperations(e: Expr): string {
    match e
    case Empty => ""
    case Leaf(c) => ClauseText(c)
    case And(l, r) => "(" + DBOperations(l) + ") AND (" + DBOperations(r) + ")"
    case Or(l, r) => "(" + DBOperations(l) + ") OR (" + DBOperations(r) + ")"
    case Not(v) => "NOT (" + DBOperations(v) + ")"
  }

  // ---------------------------------------------------------------- what the text reads back as

  function OperatorForm(op: Operator): Form {
    match op
    case Equal => Equals
    case NotEqual => NotEquals
    case Less => LessThan
    case LessOrEqual => AtMost
    case Greater => GreaterThan
    case GreaterOrEqual => AtLeast
    case In => InList(2)
    case NotIn => NotInPair
    case Between => Form.Between
  }

  function ClauseForm(c: Clause): Form {
    match c
    case WhereClause(_, _, op) => OperatorForm(op)
    case InClause(_, values) => InList(|values|)
    case NullClause(_) => IsNull
  }

  /** The tree with each clause reduced to what its text can show: its column and its form. */
  function Shape(e: Expr): Condition {
    match e
    case Empty => Empty
    case Leaf(c) => Leaf(Predicate(c.column.FullName(), ClauseForm(c)))
    case And(l, r) => And(Shape(l), Shape(r))
    case Or(l, r) => Or(Shape(l), Shape(r))
    case Not(v) => Not(Shape(v))
  }

  predicate ValidColumns(e: Expr) {
    match e
    case Empty => true
    case Leaf(c) => c.column.Valid()
    case And(l, r) => ValidColumns(l) && ValidColumns(r)
    case Or(l, r) => ValidColumns(l) && ValidColumns(r)
    case Not(v) => ValidColumns(v)
  }

  // Texts are concatenated from the left but read from the left too, so the proofs below first
  // bring a text into right-nested form.

  lemma CatAssoc(a: string, b: string, c: string)
    ensures (a + b) + c == a + (b + c)
  {
  }

  lemma NotText(inner: string, rest: string)
    ensures "NOT (" + inner + ")" + rest == "NOT " + ("(" + (inner + (")" + rest)))
  {
  }

  lemma AndText(left: string, right: string, rest: string)
    ensures "(" + left + ") AND (" + right + ")" + rest
         == "(" + (left + (")" + (" AND " + ("(" + (right + (")" + rest))))))
  {
  }

  lemma OrText(left: string, right: string, rest: string)
    ensures "(" + left + ") OR (" + right + ")" + rest
         == "(" + (left + (")" + (" OR " + ("(" + (right + (")" + rest))))))
  {
  }

  lemma MarksText(more: string, rest: string)
    ensures ("?" + more) + ")" + rest == "?" + (more + ")" + rest)
  {
  }

  lemma {:induction false} IdentifierLengthIs(name: string, rest: string)
    requires forall i :: 0 <= i < |name| ==> IdentifierChar(name[i])
    requires rest != "" && !IdentifierChar(rest[0])
    ensures IdentifierLength(name + rest) == |name|
  {
    var s := name + rest;
    assert forall i :: 0 <= i < |name| ==> s[i] == name[i];
    assert s[|name|] == rest[0];
  }

  lemma {:induction false} MoreMarksParse(k: nat, n: nat, rest: string)
    ensures ParseMoreMarks(k, MoreMarks(n) + ")" + rest) == Parsed(k + n, rest)
    decreases n
  {
    var s := MoreMarks(n) + ")" + rest;
    if n > 0 {
      assert s == ", ?" + (MoreMarks(n - 1) + ")" + rest);
      assert s[0] == ',';
      assert s[3..] == MoreMarks(n - 1) + ")" + rest;
      MoreMarksParse(k + 1, n - 1, rest);
    } else {
      assert s == ")" + rest;
    }
  }

  lemma SomeMarksParse(more: string, n: nat, rest: string)
    requires ParseMoreMarks(1, more) == Parsed(n, rest)
    ensures ParseMarks("?" + more) == Parsed(n, rest)
  {
    var s := "?" + more;
    assert s[0] == '?' && s[1..] == more;
  }

  lemma MarksParse(n: nat, rest: string)
    ensures ParseMarks(Marks(n) + ")" + rest) == Parsed(n, rest)
  {
    if n == 0 {
      assert Marks(0) + ")" == ")";
    } else {
      MoreMarksParse(1, n - 1, rest);
      SomeMarksParse(MoreMarks(n - 1) + ")" + rest, n, rest);
      MarksText(MoreMarks(n - 1), rest);
    }
  }

  lemma ListFormParses(list: string, n: nat, rest: string)
    requires ParseMarks(list) == Parsed(n, rest)
    ensures ParseForm("IN (" + list) == Parsed(InList(n), rest)
  {
    var s := "IN (" + list;
    assert s[0] == 'I' && s[4..] == list;
  }

  lemma PairText(marks: string, rest: string)
    requires marks == "?, ?"
    ensures "IN (" + (marks + ")" + rest) == "IN (?, ?)" + rest
  {
  }

  lemma PairListParses(rest: string)
    ensures ParseForm("IN (?, ?)" + rest) == Parsed(InList(2), rest)
  {
    var marks := Marks(2);
    MarksParse(2, rest);
    ListFormParses(marks + ")" + rest, 2, rest);
    PairText(marks, rest);
  }

  lemma OperatorParses(op: Operator, rest: string)
    ensures ParseForm(WhereOperatorStr(op) + rest) == Parsed(OperatorForm(op), rest)
  {
    if op == In {
      PairListParses(rest);
    } else {
      var text := WhereOperatorStr(op);
      var s := text + rest;
      assert s[|text|..] == rest;
      assert s[0] == text[0] && s[1] == text[1];
    }
  }

  /** The part of a clause's text after the column and a space. */
  function FormText(c: Clause): string {
    match c
    case WhereClause(_, _, op) => WhereOperatorStr(op)
    case InClause(_, values) => "IN (" + Marks(|values|) + ")"
    case NullClause(_) => "IS NULL"
  }

  lemma ClauseTextSplits(c: Clause)
    ensures ClauseText(c) == (c.column.FullName() + " ") + FormText(c)
  {
  }

  lemma InListParses(n: nat, rest: string)
    ensures ParseForm("IN (" + Marks(n) + ")" + rest) == Parsed(InList(n), rest)
  {
    MarksParse(n, rest);
    ListFormParses(Marks(n) + ")" + rest, n, rest);
    assert "IN (" + Marks(n) + ")" + rest == "IN (" + (Marks(n) + ")" + rest);
  }

  lemma NullFormParses(rest: string)
    ensures ParseForm("IS NULL" + rest) == Parsed(IsNull, rest)
  {
    var s := "IS NULL" + rest;
    assert s[0] == 'I' && s[1] == 'S' && s[7..] == rest;
  }

  lemma FormParses(c: Clause, rest: string)
    ensures ParseForm(FormText(c) + rest) == Parsed(ClauseForm(c), rest)
  {
    match c
    case WhereClause(_, _, op) => OperatorParses(op, rest);
    case InClause(_, values) => InListParses(|values|, rest);
    case NullClause(_) => NullFormParses(rest);
  }

  lemma ColumnSplits(name: string, tail: string)
    requires forall i :: 0 <= i < |name| ==> IdentifierChar(name[i])
    ensures var s := name + " " + tail;
            IdentifierLength(s) == |name| && s[..|name|] == name && s[|name| + 1..] == tail
  {
    IdentifierLengthIs(name, " " + tail);
    CatAssoc(name, " ", tail);
  }

  /** A text that starts with a dotted name and a space does not start with the keyword NOT. */
  lemma DottedNameIsNotNot(name: string, tail: string)
    requires Identifier(name) && '.' in name
    ensures !("NOT " <= name + " " + tail)
  {
    var s := name + " " + tail;
    if |name| < 3 {
      assert s[|name|] != "NOT "[|name|];
    } else if |name| == 3 {
      var i :| 0 <= i < 3 && name[i] == '.';
      assert s[i] != "NOT "[i];
    } else {
      assert s[3] == name[3] != "NOT "[3];
    }
  }

  lemma PredicateParses(name: string, tail: string, form: Form, rest: string)
    requires Identifier(name) && '.' in name
    requires ParseForm(tail) == Parsed(form, rest)
    ensures ParseFactor(name + " " + tail) == Parsed(Leaf(Predicate(name, form)), rest)
  {
    var s := name + " " + tail;
    ColumnSplits(name, tail);
    DottedNameIsNotNot(name, tail);
    assert s[0] == name[0] && s[|name|] == ' ';
    assert ParsePredicate(s) == Parsed(Leaf(Predicate(name, form)), rest);
  }

  /** A full name tells table and column apart, so columns of different names have different full names. */
  lemma FullNamesApart(a: Column, b: Column)
    requires '.' !in a.table && '.' !in b.table
    ensures '.' in a.FullName() && a.FullName()[|a.table|] == '.'
    ensures a.FullName()[..|a.table|] == a.table && a.FullName()[|a.table| + 1..] == a.name
    ensures a.FullName() == b.FullName() <==> a == b
  {
    var s, t := a.FullName(), b.FullName();
    assert s[|a.table|] == '.' && t[|b.table|] == '.';
    assert s[..|a.table|] == a.table && s[|a.table| + 1..] == a.name;
    assert t[..|b.table|] == b.table && t[|b.table| + 1..] == b.name;
  }

  /** The text of a clause reads back as one predicate, although it may itself contain AND. */
  lemma ClauseParses(c: Clause, rest: string)
    requires c.column.Valid()
    ensures ParseFactor(ClauseText(c) + rest)
         == Parsed(Leaf(Predicate(c.column.FullName(), ClauseForm(c))), rest)
  {
    var name, form := c.column.FullName(), FormText(c);
    ClauseTextSplits(c);
    FormParses(c, rest);
    CatAssoc(name + " ", form, rest);
    PredicateParses(name, form + rest, ClauseForm(c), rest);
  }

  /** After a complete condition: the end of the text or a closing parenthesis. */
  predicate Closes(rest: string) {
    rest == "" || rest[0] == ')'
  }

  lemma FactorAlone(s: string, c: Condition, rest: string)
    requires Closes(rest) && ParseFactor(s) == Parsed(c, rest)
    ensures ParseCondition(s) == Parsed(c, rest)
  {
    assert ParseTerm(s) == ParseAndTail(c, rest) == Parsed(c, rest);
  }

  lemma ParenthesesParse(c: Condition, inner: string, rest: string)
    requires ParseCondition(inner + (")" + rest)) == Parsed(c, ")" + rest)
    ensures ParsePrimary("(" + (inner + (")" + rest))) == Parsed(c, rest)
    ensures ParseFactor("(" + (inner + (")" + rest))) == Parsed(c, rest)
  {
    var s := "(" + (inner + (")" + rest));
    assert s[0] == '(' && s[1..] == inner + (")" + rest);
    assert (")" + rest)[0] == ')' && (")" + rest)[1..] == rest;
  }

  lemma NegationParses(operand: string, c: Condition, rest: string)
    requires Closes(rest) && ParsePrimary(operand) == Parsed(c, rest)
    ensures ParseCondition("NOT " + operand) == Parsed(Not(c), rest)
  {
    var s := "NOT " + operand;
    assert s[4..] == operand;
    FactorAlone(s, Not(c), rest);
  }

  lemma ConjunctionParses(s: string, right: string, l: Condition, r: Condition, rest: string)
    requires Closes(rest)
    requires ParseFactor(s) == Parsed(l, " AND " + right)
    requires ParseFactor(right) == Parsed(r, rest)
    ensures ParseCondition(s) == Parsed(And(l, r), rest)
  {
    var tail := " AND " + right;
    assert tail[5..] == right;
    assert ParseAndTail(And(l, r), rest) == Parsed(And(l, r), rest);
    assert ParseTerm(s) == ParseAndTail(l, tail) == Parsed(And(l, r), rest);
  }

  lemma DisjunctionParses(s: string, right: string, l: Condition, r: Condition, rest: string)
    requires Closes(rest)
    requires ParseFactor(s) == Parsed(l, " OR " + right)
    requires ParseFactor(right) == Parsed(r, rest)
    ensures ParseCondition(s) == Parsed(Or(l, r), rest)
  {
    var tail := " OR " + right;
    assert tail[4..] == right && tail[1] == 'O';
    assert ParseTerm(s) == ParseAndTail(l, tail) == Parsed(l, tail);
    assert ParseTerm(right) == ParseAndTail(r, rest) == Parsed(r, rest);
    assert ParseOrTail(Or(l, r), rest) == Parsed(Or(l, r), rest);
    assert ParseCondition(s) == ParseOrTail(l, tail);
  }

  /**
   * Reading the emitted text back with the grammar of search conditions recovers the tree, for
   * every tree without empty filters, whatever closes the text.
   */
  lemma {:induction false} TextParses(e: Expr, rest: string)
    requires Solid(e) && ValidColumns(e) && Closes(rest)
    ensures ParseCondition(DBOperations(e) + rest) == Parsed(Shape(e), rest)
    decreases e
  {
    match e
    case Leaf(c) =>
      ClauseParses(c, rest);
      FactorAlone(ClauseText(c) + rest, Shape(e), rest);
    case Not(v) =>
      var inner := DBOperations(v);
      TextParses(v, ")" + rest);
      ParenthesesParse(Shape(v), inner, rest);
      NegationParses("(" + (inner + (")" + rest)), Shape(v), rest);
      NotText(inner, rest);
    case And(l, r) =>
      var left, right := DBOperations(l), DBOperations(r);
      var second := "(" + (right + (")" + rest));
      TextParses(l, ")" + (" AND " + second));
      TextParses(r, ")" + rest);
      ParenthesesParse(Shape(l), left, " AND " + second);
      ParenthesesParse(Shape(r), right, rest);
      ConjunctionParses("(" + (left + (")" + (" AND " + second))), second, Shape(l), Shape(r), rest);
      AndText(left, right, rest);
    case Or(l, r) =>
      var left, right := DBOperations(l), DBOperations(r);
      var second := "(" + (right + (")" + rest));
      TextParses(l, ")" + (" OR " + second));
      TextParses(r, ")" + rest);
      ParenthesesParse(Shape(l), left, " OR " + second);
      ParenthesesParse(Shape(r), right, rest);
      DisjunctionParses("(" + (left + (")" + (" OR " + second))), second, Shape(l), Shape(r), rest);
      OrText(left, right, rest);
  }
}
