/** Undoable commands and groups of them (src/commands/src/commands/commands.cpp). */
module Commands {

  /**
   * A command, by what its redo and its undo do to the application state when they succeed.
   * A call that fails leaves the state as it was.
   */
  datatype Command<!S> = Command(title: string, forward: S -> S, backward: S -> S)

  /** The application state, changed by calls that may fail for reasons outside this model, and how many have. */
  class App<S(==)> {
    var state: S
    ghost var refusals: nat

    constructor (state: S)
      ensures this.state == state
    {
      this.state := state;
      refusals := 0;
    }

    method Call(f: S -> S) returns (ok: bool)
      modifies this
      ensures state == if ok then f(old(state)) else old(state)
      ensures refusals == old(refusals) + if ok then 0 else 1
    {
      ok := *;
      if ok {
        state := f(state);
      } else {
        refusals := refusals + 1;
      }
    }
  }

  /** How undoing or redoing a group ends: an error is the command's own or a compensation's. */
  datatype Outcome = Done | Failed | CompensationFailed

  /** How many calls have failed when a group ends one way or another. */
  function FailedCalls(r: Outcome): nat {
    match r
    case Done => 0
    case Failed => 1
    case CompensationFailed => 2
  }

  /** Redo the commands from first to last. */
  function Forward<S>(cs: seq<Command<S>>, s: S): S
    decreases cs
  {
    if cs == [] then s else Forward(cs[1..], cs[0].forward(s))
  }

  /** Undo the commands from last to first. */
  function Backward<S>(cs: seq<Command<S>>, s: S): S
    decreases cs
  {
    if cs == [] then s else Backward(cs[..|cs| - 1], cs[|cs| - 1].backward(s))
  }

  /** Along the run that starts at s, each command's undo takes back what its redo did. */
  predicate Reversible<S(==)>(cs: seq<Command<S>>, s: S)
    decreases cs
  {
    cs == [] || (cs[0].backward(cs[0].forward(s)) == s && Reversible(cs[1..], cs[0].forward(s)))
  }

  lemma {:induction false} ForwardConcat<S>(a: seq<Command<S>>, b: seq<Command<S>>, s: S)
    ensures Forward(a + b, s) == Forward(b, Forward(a, s))
    decreases a
  {
    if a == [] {
      assert a + b == b;
    } else {
      assert (a + b)[1..] == a[1..] + b;
      ForwardConcat(a[1..], b, a[0].forward(s));
    }
  }

  lemma {:induction false} BackwardConcat<S>(a: seq<Command<S>>, b: seq<Command<S>>, s: S)
    ensures Backward(a + b, s) == Backward(a, Backward(b, s))
    decreases b
  {
    if b == [] {
      assert a + b == a;
    } else {
      assert (a + b)[..|a + b| - 1] == a + b[..|b| - 1];
      BackwardConcat(a, b[..|b| - 1], b[|b| - 1].backward(s));
    }
  }

  lemma {:induction false} ReversibleConcat<S>(a: seq<Command<S>>, b: seq<Command<S>>, s: S)
    ensures Reversible(a + b, s) <==> Reversible(a, s) && Reversible(b, Forward(a, s))
    decreases a
  {
    if a == [] {
      assert a + b == b;
    } else {
      assert (a + b)[1..] == a[1..] + b;
      ReversibleConcat(a[1..], b, a[0].forward(s));
    }
  }

  /** A reversible group, redone and then undone, leaves the state it started from. */
  lemma {:induction false} BackwardUndoesForward<S>(cs: seq<Command<S>>, s: S)
    requires Reversible(cs, s)
    ensures Backward(cs, Forward(cs, s)) == s
    decreases cs
  {
    if cs != [] {
      BackwardUndoesForward(cs[1..], cs[0].forward(s));
      assert cs == [cs[0]] + cs[1..];
      BackwardConcat([cs[0]], cs[1..], Forward(cs, s));
      assert Backward([cs[0]], cs[0].forward(s)) == Backward([cs[0]][..0], s);
    }
  }

  /** Where a group stands when its undo stops: commands i on undone, i to j - 1 of them redone. */
  function UndoStopped<S>(cs: seq<Command<S>>, i: nat, j: nat, s: S): S
    requires i <= j <= |cs|
  {
    Forward(cs[i..j], Backward(cs[i..], s))
  }

  /** Where a group stands when its redo stops: commands before i redone, j to i - 1 of them undone. */
  function RedoStopped<S>(cs: seq<Command<S>>, j: nat, i: nat, s: S): S
    requires j <= i <= |cs|
  {
    Backward(cs[j..i], Forward(cs[..i], s))
  }

  /** How a group undo may end, from state s. */
  ghost predicate UndoEnds<S>(cs: seq<Command<S>>, s: S, r: Outcome, after: S) {
    match r
    case Done => after == Backward(cs, s)
    case Failed => exists i: nat :: 0 < i <= |cs| && after == UndoStopped(cs, i, |cs|, s)
    case CompensationFailed => exists i: nat, j: nat :: 0 < i <= j < |cs| && after == UndoStopped(cs, i, j, s)
  }

  /** How a group redo may end, from state s. */
  ghost predicate RedoEnds<S>(cs: seq<Command<S>>, s: S, r: Outcome, after: S) {
    match r
    case Done => after == Forward(cs, s)
    case Failed => exists i: nat :: i < |cs| && after == RedoStopped(cs, 0, i, s)
    case CompensationFailed => exists j: nat, i: nat :: 0 < j <= i < |cs| && after == RedoStopped(cs, j, i, s)
  }

  lemma UndoOneMore<S>(cs: seq<Command<S>>, i: nat, s: S)
    requires 0 < i <= |cs|
    ensures Backward(cs[i - 1..], s) == cs[i - 1].backward(Backward(cs[i..], s))
  {
    assert cs[i - 1..] == [cs[i - 1]] + cs[i..];
    BackwardConcat([cs[i - 1]], cs[i..], s);
  }

  lemma RedoneOneMore<S>(cs: seq<Command<S>>, i: nat, j: nat, s: S)
    requires i <= j < |cs|
    ensures UndoStopped(cs, i, j + 1, s) == cs[j].forward(UndoStopped(cs, i, j, s))
  {
    assert cs[i..j + 1] == cs[i..j] + [cs[j]];
    ForwardConcat(cs[i..j], [cs[j]], Backward(cs[i..], s));
  }

  /** Redo again what a failed undo had undone, from command i on. */
  method RedoUndone<S(==)>(cs: seq<Command<S>>, i: nat, app: App<S>, ghost s: S) returns (r: Outcome)
    requires i <= |cs| && app.state == UndoStopped(cs, i, i, s)
    modifies app
    ensures r == Failed ==> app.state == UndoStopped(cs, i, |cs|, s)
    ensures r == CompensationFailed ==> exists j: nat :: i <= j < |cs| && app.state == UndoStopped(cs, i, j, s)
    ensures r != Done && app.refusals == old(app.refusals) + FailedCalls(r) - 1
  {
    var j := i;
    while j < |cs|
      invariant i <= j <= |cs| && app.state == UndoStopped(cs, i, j, s)
      invariant app.refusals == old(app.refusals)
    {
      RedoneOneMore(cs, i, j, s);
      var ok := app.Call(cs[j].forward);
      if !ok {
        return CompensationFailed;
      }
      j := j + 1;
    }
    return Failed;
  }

  /** Undo from the last command to the first; on failure redo what was undone. */
  method UndoAll<S(==)>(cs: seq<Command<S>>, app: App<S>) returns (r: Outcome)
    modifies app
    ensures UndoEnds(cs, old(app.state), r, app.state)
    ensures app.refusals == old(app.refusals) + FailedCalls(r)
  {
    ghost var s := app.state;
    var i := |cs|;
    while i > 0
      invariant 0 <= i <= |cs| && app.state == Backward(cs[i..], s)
      invariant app.refusals == old(app.refusals)
    {
      UndoOneMore(cs, i, s);
      var ok := app.Call(cs[i - 1].backward);
      if !ok {
        assert cs[i..i] == [];
        r := RedoUndone(cs, i, app, s);
        return;
      }
      i := i - 1;
    }
    assert cs[0..] == cs;
    return Done;
  }

  /** Redo from the first command to the last; on failure undo what was redone. */
  method RedoAll<S(==)>(cs: seq<Command<S>>, app: App<S>) returns (r: Outcome)
    modifies app
    ensures RedoEnds(cs, old(app.state), r, app.state)
    ensures app.refusals == old(app.refusals) + FailedCalls(r)
  {
    ghost var s := app.state;
    for i := 0 to |cs|
      invariant app.state == Forward(cs[..i], s) && app.refusals == old(app.refusals)
    {
      var ok := app.Call(cs[i].forward);
      if !ok {
        var j := i;
        assert cs[i..i] == [];
        while j > 0
          invariant 0 <= j <= i && app.state == RedoStopped(cs, j, i, s)
          invariant app.refusals == old(app.refusals) + 1
        {
          ok := app.Call(cs[j - 1].backward);
          if !ok {
            return CompensationFailed;
          }
          assert cs[j - 1..i] == [cs[j - 1]] + cs[j..i];
          BackwardConcat([cs[j - 1]], cs[j..i], Forward(cs[..i], s));
          j := j - 1;
        }
        return Failed;
      }
      assert cs[..i + 1] == cs[..i] + [cs[i]];
      ForwardConcat(cs[..i], [cs[i]], s);
    }
    assert cs[..|cs|] == cs;
    return Done;
  }

  // ------------------------------------------------------------------------ all or nothing

  /**
   * Undo of a reversible group that has been applied to s: success gives s back, a compensated
   * failure changes nothing, and a failed compensation leaves some, not all, first commands applied.
   */
  lemma UndoIsAllOrNothing<S>(cs: seq<Command<S>>, s: S, r: Outcome, after: S)
    requires Reversible(cs, s) && UndoEnds(cs, Forward(cs, s), r, after)
    ensures r == Done ==> after == s
    ensures r == Failed ==> after == Forward(cs, s)
    ensures r == CompensationFailed ==> exists k: nat :: 0 < k < |cs| && after == Forward(cs[..k], s)
  {
    BackwardUndoesForward(cs, s);
    if r == Failed {
      var i: nat :| 0 < i <= |cs| && after == UndoStopped(cs, i, |cs|, Forward(cs, s));
      UndoStoppedIs(cs, i, |cs|, s);
      assert cs[..|cs|] == cs;
    } else if r == CompensationFailed {
      var i: nat, j: nat :| 0 < i <= j < |cs| && after == UndoStopped(cs, i, j, Forward(cs, s));
      UndoStoppedIs(cs, i, j, s);
    }
  }

  lemma UndoStoppedIs<S>(cs: seq<Command<S>>, i: nat, j: nat, s: S)
    requires Reversible(cs, s) && i <= j <= |cs|
    ensures UndoStopped(cs, i, j, Forward(cs, s)) == Forward(cs[..j], s)
  {
    assert cs == cs[..i] + cs[i..];
    ForwardConcat(cs[..i], cs[i..], s);
    ReversibleConcat(cs[..i], cs[i..], s);
    BackwardUndoesForward(cs[i..], Forward(cs[..i], s));
    assert cs[..j] == cs[..i] + cs[i..j];
    ForwardConcat(cs[..i], cs[i..j], s);
  }

  /**
   * Redo of a reversible group from s: success applies all of it, a compensated failure changes
   * nothing, and a failed compensation leaves some, not all, first commands applied.
   */
  lemma RedoIsAllOrNothing<S>(cs: seq<Command<S>>, s: S, r: Outcome, after: S)
    requires Reversible(cs, s) && RedoEnds(cs, s, r, after)
    ensures r == Done ==> after == Forward(cs, s)
    ensures r == Failed ==> after == s
    ensures r == CompensationFailed ==> exists k: nat :: 0 < k < |cs| && after == Forward(cs[..k], s)
  {
    if r == Failed {
      var i: nat :| i < |cs| && after == RedoStopped(cs, 0, i, s);
      RedoStoppedIs(cs, 0, i, s);
      assert Forward(cs[..0], s) == s;
    } else if r == CompensationFailed {
      var j: nat, i: nat :| 0 < j <= i < |cs| && after == RedoStopped(cs, j, i, s);
      RedoStoppedIs(cs, j, i, s);
    }
  }

  lemma RedoStoppedIs<S>(cs: seq<Command<S>>, j: nat, i: nat, s: S)
    requires Reversible(cs, s) && j <= i <= |cs|
    ensures RedoStopped(cs, j, i, s) == Forward(cs[..j], s)
  {
    assert cs == cs[..i] + cs[i..];
    ReversibleConcat(cs[..i], cs[i..], s);
    assert cs[..i] == cs[..j] + cs[j..i];
    ForwardConcat(cs[..j], cs[j..i], s);
    ReversibleConcat(cs[..j], cs[j..i], s);
    BackwardUndoesForward(cs[j..i], Forward(cs[..j], s));
  }

  // ------------------------------------------------------------------------ groups

  /** A group of commands that is undone and redone as one. */
  datatype Group<!S> = Group(commands: seq<Command<S>>, title: string, disabled: bool)

  /** The group that running one group and then the other makes; an empty addition changes nothing. */
  function Merge<S>(a: Group<S>, b: Group<S>): Group<S> {
    if b.commands == [] then a
    else Group(a.commands + b.commands,
               if a.title == "" then b.title
               else if b.title != "" then a.title + " > " + b.title
               else a.title,
               a.disabled || b.disabled)
  }

  /**
   * Merging two groups applies the first and then the second, and is reversible if both are; it is
   * disabled if the first is, or if the second is and adds any command.
   */
  lemma MergeRunsBoth<S>(a: Group<S>, b: Group<S>, s: S)
    ensures Forward(Merge(a, b).commands, s) == Forward(b.commands, Forward(a.commands, s))
    ensures Reversible(Merge(a, b).commands, s)
       <==> Reversible(a.commands, s) && Reversible(b.commands, Forward(a.commands, s))
    ensures Merge(a, b).disabled <==> a.disabled || (b.disabled && b.commands != [])
  {
    ForwardConcat(a.commands, b.commands, s);
    ReversibleConcat(a.commands, b.commands, s);
    assert b.commands == [] ==> a.commands + b.commands == a.commands;
  }

  /** A group object, filled by appending other groups, which it empties. */
  class GroupCell<S(==)> {
    var group: Group<S>

    constructor (group: Group<S>)
      ensures this.group == group
    {
      this.group := group;
    }

    method Append(other: GroupCell<S>)
      requires other != this
      modifies this, other
      ensures group == Merge(old(group), old(other.group))
      ensures other.group == old(other.group).(commands := [])
    {
      if other.group.commands == [] {
        return;
      }
      var added := other.group;
      group := group.(commands := group.commands + added.commands);
      if group.title == "" {
        group := group.(title := added.title);
      } else if added.title != "" {
        group := group.(title := group.title + " > " + added.title);
      }
      group := group.(disabled := group.disabled || added.disabled);
      other.group := added.(commands := []);
    }
  }
}
