/** Which names registering a category puts into the tree. */
module CategoryNames {
  import opened Text
  import opened CategoryNodes

  /** The names met when pieces are appended one by one to a prefix. */
  function NamesFrom(prefix: string, segments: seq<string>): set<string> {
    set k | 0 <= k <= |segments| :: JoinFrom(prefix, segments[..k])
  }

  /** The names on the way to a full name, the root's included. */
  function Names(fullName: string): set<string> {
    NamesFrom("", Segments(fullName))
  }

  /** The names of the tree that is built from some registered ones. */
  function AllNames(names: set<string>): set<string> {
    {""} + set n, m | n in names && m in Names(n) :: m
  }

  lemma StartIsNamed(prefix: string, segments: seq<string>)
    ensures prefix in NamesFrom(prefix, segments)
  {
    assert JoinFrom(prefix, segments[..0]) == prefix;
  }

  lemma NamesUnfold(prefix: string, segments: seq<string>)
    requires segments != []
    ensures NamesFrom(prefix, segments)
         == {prefix} + NamesFrom(AppendSegment(prefix, segments[0]), segments[1..])
  {
    var next, rest := AppendSegment(prefix, segments[0]), segments[1..];
    forall k | 1 <= k <= |segments|
      ensures JoinFrom(prefix, segments[..k]) == JoinFrom(next, rest[..k - 1])
    {
      assert segments[..k][1..] == rest[..k - 1];
    }
    assert JoinFrom(prefix, segments[..0]) == prefix;
    forall x | x in NamesFrom(next, rest)
      ensures x in NamesFrom(prefix, segments)
    {
      var k :| 0 <= k <= |rest| && x == JoinFrom(next, rest[..k]);
      assert x == JoinFrom(prefix, segments[..k + 1]);
    }
  }

  lemma NamesNext(prefix: string, rest: string)
    requires rest != ""
    ensures NamesFrom(prefix, Segments(rest))
         == {prefix} + NamesFrom(AppendSegment(prefix, rest[..FindDot(rest)]), Segments(AfterDot(rest)))
  {
    NamesUnfold(prefix, Segments(rest));
    assert Segments(rest)[1..] == Segments(AfterDot(rest));
  }

  lemma NamesEnd(prefix: string)
    ensures NamesFrom(prefix, Segments("")) == {prefix}
  {
    assert Segments("") == [] && JoinFrom(prefix, [][..0]) == prefix;
  }

  // ------------------------------------------------------------------------ names as beginnings of the text

  /** A name may end before a dot, or at the end of a text that does not end in one. */
  predicate CutAt(full: string, i: int) {
    && 0 <= i <= |full|
    && if i < |full| then full[i] == '.' else full == "" || full[i - 1] != '.'
  }

  function Cuts(full: string, from: nat): set<string> {
    set i | from <= i <= |full| && CutAt(full, i) :: full[..i]
  }

  /** A text that goes on with a dot and then a piece up to position `to`. */
  lemma CutsOfPiece(full: string, from: nat, to: nat)
    requires from < to <= |full| && full[from] == '.'
    requires forall i :: from < i < to ==> full[i] != '.'
    ensures Cuts(full, from) == {full[..from]} + Cuts(full, to)
  {
  }

  lemma PieceInPlace(p: string, rest: string)
    requires rest != ""
    ensures var full, to := p + "." + rest, |p| + 1 + FindDot(rest);
      && to <= |full| && full[|p|] == '.' && full[..|p|] == p
      && full[..to] == p + "." + rest[..FindDot(rest)]
      && forall i :: |p| < i < to ==> full[i] != '.'
  {
    var full := p + "." + rest;
    assert forall i :: |p| < i < |full| ==> full[i] == rest[i - |p| - 1];
  }

  /** At the end of a text whose last piece is empty, or has no dot, only the whole text is a name. */
  lemma CutsAtEnd(full: string)
    requires full != "" && full[|full| - 1] != '.'
    ensures Cuts(full, |full|) == {full}
  {
    assert full[..|full|] == full && CutAt(full, |full|);
  }

  lemma CutsBeforeLastDot(p: string)
    ensures Cuts(p + ".", |p|) == {p}
  {
    var full := p + ".";
    assert full[..|p|] == p && CutAt(full, |p|) && !CutAt(full, |full|);
  }

  /** After a non-empty prefix the names are the beginnings of the text, cut before its dots. */
  lemma {:induction false} NamesAfterPrefix(p: string, rest: string)
    requires p != ""
    ensures NamesFrom(p, Segments(rest)) == Cuts(p + "." + rest, |p|)
    decreases |rest|
  {
    if rest == "" {
      NamesEnd(p);
      CutsBeforeLastDot(p);
      assert p + "." + "" == p + ".";
    } else {
      var n := FindDot(rest);
      var full, longer := p + "." + rest, p + "." + rest[..n];
      NamesNext(p, rest);
      PieceInPlace(p, rest);
      CutsOfPiece(full, |p|, |longer|);
      if n == |rest| {
        NamesEnd(longer);
        assert full == longer && full[|full| - 1] == rest[|rest| - 1];
        CutsAtEnd(full);
      } else {
        SplitAtDot(rest);
        NamesAfterPrefix(longer, AfterDot(rest));
        DotsAssociate(p, rest[..n], AfterDot(rest));
      }
    }
  }

  /** Without a leading dot. */
  lemma NamesAreCuts(n: string)
    requires n != "" && n[0] != '.'
    ensures Names(n) == {""} + Cuts(n, 1)
  {
    var d := FindDot(n);
    var first := n[..d];
    assert d > 0;
    NamesNext("", n);
    if d == |n| {
      NamesEnd(first);
      assert first == n;
      CutsAtEnd(n);
    } else {
      SplitAtDot(n);
      NamesAfterPrefix(first, AfterDot(n));
    }
  }

  /** A leading dot makes no difference: it leads from the root to the root. */
  lemma LeadingDotAddsNothing(n: string)
    requires n != "" && n[0] == '.'
    ensures Names(n) == Names(n[1..])
  {
    assert FindDot(n) == 0 && AfterDot(n) == n[1..];
    NamesNext("", n);
    RootIsNamed(n[1..]);
  }

  lemma RootIsNamed(n: string)
    ensures "" in Names(n)
  {
    StartIsNamed("", Segments(n));
  }

  lemma CutOfCut(m: string, i: int)
    requires m != "" && m[0] != '.' && 1 <= i <= |m| && CutAt(m, i)
    ensures Names(m[..i]) <= {""} + Cuts(m, 1)
  {
    var n := m[..i];
    NamesAreCuts(n);
    forall x | x in Cuts(n, 1)
      ensures x in Cuts(m, 1)
    {
      var j :| 1 <= j <= |n| && CutAt(n, j) && x == n[..j];
      assert m[..j] == x && CutAt(m, j);
    }
  }

  /** The names on the way to a name on the way are on the way. */
  lemma {:induction false} NamesAreClosed(m: string, n: string)
    requires n in Names(m)
    ensures Names(n) <= Names(m)
    decreases |m|
  {
    if m == "" {
      NamesEnd("");
    } else if m[0] == '.' {
      LeadingDotAddsNothing(m);
      NamesAreClosed(m[1..], n);
    } else {
      NamesAreCuts(m);
      if n == "" {
        NamesEnd("");
      } else {
        var i :| 1 <= i <= |m| && CutAt(m, i) && n == m[..i];
        CutOfCut(m, i);
      }
    }
  }

  // ------------------------------------------------------------------------ all names

  /** The tree of some names: registering one more, in any order, adds the names on the way to it. */
  lemma AllNamesAdd(names: set<string>, name: string)
    ensures AllNames(names + {name}) == AllNames(names) + Names(name)
  {
    RootIsNamed(name);
  }

  /** A name that is there already brings nothing new, nor do the names on the way to it. */
  lemma KnownNameAddsNothing(names: set<string>, name: string)
    requires name in AllNames(names)
    ensures Names(name) <= AllNames(names)
  {
    if name == "" {
      NamesEnd("");
    } else {
      var n :| n in names && name in Names(n);
      NamesAreClosed(n, name);
    }
  }

  /** Walking down one piece: a name more is there, and a piece less to come. */
  lemma OnePieceDown(keys: set<string>, current: string, rest: string, all: set<string>)
    requires rest != "" && current in keys
    requires keys + NamesFrom(current, Segments(rest)) == all
    ensures var next := AppendSegment(current, rest[..FindDot(rest)]);
      keys + {next} + NamesFrom(next, Segments(AfterDot(rest))) == all
  {
    NamesNext(current, rest);
    StartIsNamed(AppendSegment(current, rest[..FindDot(rest)]), Segments(AfterDot(rest)));
  }
}
