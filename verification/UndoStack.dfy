/** The linear undo history (src/commands/src/commands/undo_stack.cpp). */
module UndoStack {
  import opened Commands

  datatype Result = Ok | NothingToUndo | NothingToRedo | GroupError(outcome: Outcome)

  /** How many calls have failed when an undo or a redo answers with a result. */
  function CallsFailed(r: Result): nat {
    if r.GroupError? then FailedCalls(r.outcome) else 0
  }

  /** The history, its cursor, and the application state. */
  datatype World<!S> = World(groups: seq<Group<S>>, cursor: nat, state: S)

  class Stack<S(==)> {
    var groups: seq<Group<S>>
    var cursor: nat

    constructor ()
      ensures groups == [] && cursor == 0 && Valid()
    {
      groups, cursor := [], 0;
    }

    predicate Valid()
      reads this
    {
      cursor <= |groups|
    }

    function Look(app: App<S>): World<S>
      reads this, app
    {
      World(groups, cursor, app.state)
    }

    method Push(g: Group<S>, app: App<S>)
      requires Valid()
      modifies this
      ensures Valid() && Look(app) == Pushed(old(Look(app)), g)
    {
      if cursor < |groups| {
        groups := groups[..cursor];
      }
      assert groups == old(groups)[..cursor];
      groups := groups + [g];
      cursor := |groups|;
    }

    predicate CanUndo()
      reads this
    {
      cursor > 0
    }

    predicate CanRedo()
      reads this
    {
      cursor < |groups|
    }

    method Undo(app: App<S>) returns (r: Result)
      requires Valid()
      modifies this`cursor, app
      ensures Valid() && UndoStep(old(Look(app)), r, Look(app))
      ensures app.refusals == old(app.refusals) + CallsFailed(r)
    {
      if !CanUndo() {
        return NothingToUndo;
      }
      if !groups[cursor - 1].disabled {
        cursor := cursor - 1;
        var outcome := UndoAll(groups[cursor].commands, app);
        if outcome != Done {
          return GroupError(outcome);
        }
      }
      return Ok;
    }

    method Redo(app: App<S>) returns (r: Result)
      requires Valid()
      modifies this`cursor, app
      ensures Valid() && RedoStep(old(Look(app)), r, Look(app))
      ensures app.refusals == old(app.refusals) + CallsFailed(r)
    {
      if !CanRedo() {
        return NothingToRedo;
      }
      if !groups[cursor].disabled {
        var outcome := RedoAll(groups[cursor].commands, app);
        if outcome != Done {
          return GroupError(outcome);
        }
        cursor := cursor + 1;
      }
      return Ok;
    }
  }

  // ------------------------------------------------------------------------ steps

  /** A group is recorded: everything that could be redone is forgotten. */
  function Pushed<S>(w: World<S>, g: Group<S>): World<S>
    requires w.cursor <= |w.groups|
  {
    World(w.groups[..w.cursor] + [g], w.cursor + 1, w.state)
  }

  /** A group has just been carried out, reversibly, and is recorded. */
  ghost predicate DoStep<S>(w: World<S>, g: Group<S>, w': World<S>) {
    && w.cursor <= |w.groups|
    && Reversible(g.commands, w.state)
    && w' == Pushed(w.(state := Forward(g.commands, w.state)), g)
  }

  ghost predicate UndoStep<S>(w: World<S>, r: Result, w': World<S>) {
    && w.cursor <= |w.groups| && w'.groups == w.groups
    && if w.cursor == 0 then r == NothingToUndo && w' == w
       else if w.groups[w.cursor - 1].disabled then r == Ok && w' == w
       else
         && w'.cursor == w.cursor - 1 && (r == Ok || (r.GroupError? && r.outcome != Done))
         && UndoEnds(w.groups[w.cursor - 1].commands, w.state, if r == Ok then Done else r.outcome, w'.state)
  }

  ghost predicate RedoStep<S>(w: World<S>, r: Result, w': World<S>) {
    && w.cursor <= |w.groups| && w'.groups == w.groups
    && if w.cursor == |w.groups| then r == NothingToRedo && w' == w
       else if w.groups[w.cursor].disabled then r == Ok && w' == w
       else
         && w'.cursor == (if r == Ok then w.cursor + 1 else w.cursor)
         && (r == Ok || (r.GroupError? && r.outcome != Done))
         && RedoEnds(w.groups[w.cursor].commands, w.state, if r == Ok then Done else r.outcome, w'.state)
  }

  // ------------------------------------------------------------------------ the history property

  /** The state after the given groups are carried out in order. */
  function ForwardAll<S>(gs: seq<Group<S>>, s: S): S
    decreases gs
  {
    if gs == [] then s else ForwardAll(gs[1..], Forward(gs[0].commands, s))
  }

  predicate ReversibleAll<S(==)>(gs: seq<Group<S>>, s: S)
    decreases gs
  {
    gs == [] || (Reversible(gs[0].commands, s) && ReversibleAll(gs[1..], Forward(gs[0].commands, s)))
  }

  lemma {:induction false} ForwardAllConcat<S>(a: seq<Group<S>>, b: seq<Group<S>>, s: S)
    ensures ForwardAll(a + b, s) == ForwardAll(b, ForwardAll(a, s))
    ensures ReversibleAll(a + b, s) <==> ReversibleAll(a, s) && ReversibleAll(b, ForwardAll(a, s))
    decreases a
  {
    if a == [] {
      assert a + b == b;
    } else {
      assert (a + b)[1..] == a[1..] + b;
      ForwardAllConcat(a[1..], b, Forward(a[0].commands, s));
    }
  }

  /** The state is the base state with exactly the groups below the cursor carried out, in order. */
  predicate History<S(==)>(base: S, w: World<S>) {
    && w.cursor <= |w.groups|
    && ReversibleAll(w.groups, base)
    && w.state == ForwardAll(w.groups[..w.cursor], base)
  }

  /** One recorded group more: the state before it, and its reversibility there. */
  lemma GroupAt<S>(base: S, gs: seq<Group<S>>, k: nat)
    requires ReversibleAll(gs, base) && k < |gs|
    ensures Reversible(gs[k].commands, ForwardAll(gs[..k], base))
    ensures ForwardAll(gs[..k + 1], base) == Forward(gs[k].commands, ForwardAll(gs[..k], base))
  {
    assert gs == gs[..k] + gs[k..];
    ForwardAllConcat(gs[..k], gs[k..], base);
    assert gs[..k + 1] == gs[..k] + [gs[k]];
    ForwardAllConcat(gs[..k], [gs[k]], base);
    assert ForwardAll([gs[k]], ForwardAll(gs[..k], base))
        == ForwardAll([], Forward(gs[k].commands, ForwardAll(gs[..k], base)));
  }

  lemma DoKeepsHistory<S>(base: S, w: World<S>, g: Group<S>, w': World<S>)
    requires History(base, w) && DoStep(w, g, w')
    ensures History(base, w')
  {
    var below := w.groups[..w.cursor];
    assert w.groups == below + w.groups[w.cursor..];
    ForwardAllConcat(below, w.groups[w.cursor..], base);
    ForwardAllConcat(below, [g], base);
    assert ReversibleAll([g][1..], Forward(g.commands, w.state));
    assert ForwardAll([g][1..], Forward(g.commands, w.state)) == w'.state;
    assert w'.groups[..w'.cursor] == w'.groups;
  }

  /** The first k commands of a group are left applied to s. */
  predicate LeftApplied<S(==)>(g: Group<S>, s: S, k: nat, after: S) {
    k <= |g.commands| && after == Forward(g.commands[..k], s)
  }

  /** The first k commands of a group have no effect on s together. */
  predicate NoEffect<S(==)>(g: Group<S>, s: S, k: nat)
    requires k <= |g.commands|
  {
    Forward(g.commands[..k], s) == s
  }

  /** No first part of a group that is shorter than n has an effect on s. */
  predicate NoPartHasEffect<S(==)>(g: Group<S>, s: S, n: nat)
    requires n <= |g.commands| + 1
  {
    forall k: nat :: 0 < k < n ==> NoEffect(g, s, k)
  }

  /** The state below the group that an undo would run. */
  function Below<S>(base: S, w: World<S>): S
    requires 0 < w.cursor <= |w.groups|
  {
    ForwardAll(w.groups[..w.cursor - 1], base)
  }

  /** What an undo that reports a group error leaves: all of the group, or a part of it. */
  ghost predicate UndoLeaves<S>(base: S, w: World<S>, outcome: Outcome, w': World<S>, k: nat)
    requires 0 < w.cursor <= |w.groups|
  {
    var g := w.groups[w.cursor - 1];
    && LeftApplied(g, Below(base, w), k, w'.state)
    && if outcome == Failed then k == |g.commands| else 0 < k < |g.commands|
  }

  /**
   * Every way an undo can end. Without a group error the history property is kept. With one the
   * cursor has moved although the group, or a first part of it, is still applied, and the property
   * is kept exactly when that part has no effect.
   */
  lemma UndoKeepsHistoryExactlyWhen<S>(base: S, w: World<S>, r: Result, w': World<S>)
    requires History(base, w) && UndoStep(w, r, w')
    ensures !r.GroupError? ==> History(base, w')
    ensures r.GroupError? ==> w.cursor > 0 && exists k: nat ::
      && UndoLeaves(base, w, r.outcome, w', k)
      && (History(base, w') <==> NoEffect(w.groups[w.cursor - 1], Below(base, w), k))
  {
    if w'.cursor < w.cursor {
      var g, s := w.groups[w.cursor - 1], Below(base, w);
      GroupAt(base, w.groups, w.cursor - 1);
      UndoIsAllOrNothing(g.commands, s, if r == Ok then Done else r.outcome, w'.state);
      if r == GroupError(Failed) {
        assert g.commands[..|g.commands|] == g.commands;
        assert UndoLeaves(base, w, r.outcome, w', |g.commands|);
      } else if r == GroupError(CompensationFailed) {
        var k: nat :| 0 < k < |g.commands| && w'.state == Forward(g.commands[..k], s);
        assert UndoLeaves(base, w, r.outcome, w', k);
      }
    }
  }

  /**
   * Every way a redo can end. Unless a compensation fails the history property is kept; then a
   * first part of the group is left applied above the cursor, and the property is kept exactly when
   * that part has no effect.
   */
  lemma RedoKeepsHistoryExactlyWhen<S>(base: S, w: World<S>, r: Result, w': World<S>)
    requires History(base, w) && RedoStep(w, r, w')
    ensures r != GroupError(CompensationFailed) ==> History(base, w')
    ensures r == GroupError(CompensationFailed) ==> w.cursor < |w.groups| && exists k: nat ::
      && 0 < k < |w.groups[w.cursor].commands|
      && LeftApplied(w.groups[w.cursor], w.state, k, w'.state)
      && (History(base, w') <==> NoEffect(w.groups[w.cursor], w.state, k))
  {
    if w.cursor < |w.groups| && !w.groups[w.cursor].disabled {
      var g := w.groups[w.cursor];
      GroupAt(base, w.groups, w.cursor);
      RedoIsAllOrNothing(g.commands, w.state, if r == Ok then Done else r.outcome, w'.state);
      if r == GroupError(CompensationFailed) {
        var k: nat :| 0 < k < |g.commands| && w'.state == Forward(g.commands[..k], w.state);
        assert LeftApplied(g, w.state, k, w'.state);
      }
    }
  }

  /** The state that an undo reaches whose first failing step is command k - 1, and whose redo of k fails. */
  lemma UndoCanLeave<S>(base: S, w: World<S>, k: nat) returns (r: Result, w': World<S>)
    requires History(base, w) && w.cursor > 0 && !w.groups[w.cursor - 1].disabled
    requires 0 < k <= |w.groups[w.cursor - 1].commands|
    ensures UndoStep(w, r, w') && w'.cursor == w.cursor - 1
    ensures LeftApplied(w.groups[w.cursor - 1], Below(base, w), k, w'.state)
  {
    var cs := w.groups[w.cursor - 1].commands;
    GroupAt(base, w.groups, w.cursor - 1);
    UndoStoppedIs(cs, k, k, Below(base, w));
    r := GroupError(if k == |cs| then Failed else CompensationFailed);
    w' := World(w.groups, w.cursor - 1, UndoStopped(cs, k, k, w.state));
  }

  lemma RedoCanLeave<S>(base: S, w: World<S>, k: nat) returns (r: Result, w': World<S>)
    requires History(base, w) && w.cursor < |w.groups| && !w.groups[w.cursor].disabled
    requires 0 < k < |w.groups[w.cursor].commands|
    ensures RedoStep(w, r, w') && w'.cursor == w.cursor
    ensures LeftApplied(w.groups[w.cursor], w.state, k, w'.state)
  {
    var cs := w.groups[w.cursor].commands;
    GroupAt(base, w.groups, w.cursor);
    RedoStoppedIs(cs, k, k, w.state);
    r := GroupError(CompensationFailed);
    w' := World(w.groups, w.cursor, RedoStopped(cs, k, k, w.state));
  }

  ghost predicate EveryUndoKeepsHistory<S(!new)>(base: S, w: World<S>) {
    forall r, w' :: UndoStep(w, r, w') ==> History(base, w')
  }

  ghost predicate EveryRedoKeepsHistory<S(!new)>(base: S, w: World<S>) {
    forall r, w' :: RedoStep(w, r, w') ==> History(base, w')
  }

  /**
   * Before the undo: it keeps the history property however it ends exactly when every first part
   * of its group, and the whole of it, has no effect.
   */
  lemma UndoIsSafeExactlyWhen<S(!new)>(base: S, w: World<S>)
    requires History(base, w) && w.cursor > 0 && !w.groups[w.cursor - 1].disabled
    ensures EveryUndoKeepsHistory(base, w)
       <==> NoPartHasEffect(w.groups[w.cursor - 1], Below(base, w), |w.groups[w.cursor - 1].commands| + 1)
  {
    var g, s := w.groups[w.cursor - 1], Below(base, w);
    if NoPartHasEffect(g, s, |g.commands| + 1) {
      forall r, w' | UndoStep(w, r, w')
        ensures History(base, w')
      {
        UndoKeepsHistoryExactlyWhen(base, w, r, w');
      }
    } else {
      var k: nat :| 0 < k <= |g.commands| && !NoEffect(g, s, k);
      var r, w' := UndoCanLeave(base, w, k);
      assert !History(base, w');
    }
  }

  /** Before the redo: the same, for the proper first parts of its group. */
  lemma RedoIsSafeExactlyWhen<S(!new)>(base: S, w: World<S>)
    requires History(base, w) && w.cursor < |w.groups| && !w.groups[w.cursor].disabled
    ensures EveryRedoKeepsHistory(base, w)
       <==> NoPartHasEffect(w.groups[w.cursor], w.state, |w.groups[w.cursor].commands|)
  {
    var g := w.groups[w.cursor];
    if NoPartHasEffect(g, w.state, |g.commands|) {
      forall r, w' | RedoStep(w, r, w')
        ensures History(base, w')
      {
        RedoKeepsHistoryExactlyWhen(base, w, r, w');
      }
    } else {
      var k: nat :| 0 < k < |g.commands| && !NoEffect(g, w.state, k);
      var r, w' := RedoCanLeave(base, w, k);
      assert !History(base, w');
    }
  }

  /** After a failed and compensated undo, a redo that succeeds carries the group out a second time. */
  lemma FailedUndoThenRedoRepeats<S>(base: S, w: World<S>, w': World<S>, w'': World<S>)
    requires History(base, w) && UndoStep(w, GroupError(Failed), w') && RedoStep(w', Ok, w'')
    ensures w''.cursor == w.cursor
    ensures w''.state == Forward(w.groups[w.cursor - 1].commands, w.state)
  {
    GroupAt(base, w.groups, w.cursor - 1);
    UndoIsAllOrNothing(w.groups[w.cursor - 1].commands, Below(base, w), Failed, w'.state);
  }

  /** One step of a run in which no undo reports an error and every failed redo is compensated. */
  ghost predicate GoodStep<S(!new)>(w: World<S>, w': World<S>) {
    || (exists g :: DoStep(w, g, w'))
    || (exists r: Result :: !r.GroupError? && UndoStep(w, r, w'))
    || (exists r: Result :: r != GroupError(CompensationFailed) && RedoStep(w, r, w'))
  }

  /** Any step at all. */
  ghost predicate AnyStep<S(!new)>(w: World<S>, w': World<S>) {
    || (exists g :: w.cursor <= |w.groups| && w'.groups == Pushed(w, g).groups && w'.cursor == w.cursor + 1)
    || (exists r: Result :: UndoStep(w, r, w'))
    || (exists r: Result :: RedoStep(w, r, w'))
  }

  lemma GoodStepKeepsHistory<S(!new)>(base: S, w: World<S>, w': World<S>)
    requires History(base, w) && GoodStep(w, w')
    ensures History(base, w')
  {
    if g :| DoStep(w, g, w') {
      DoKeepsHistory(base, w, g, w');
    } else if r: Result :| !r.GroupError? && UndoStep(w, r, w') {
      UndoKeepsHistoryExactlyWhen(base, w, r, w');
    } else {
      var r: Result :| r != GroupError(CompensationFailed) && RedoStep(w, r, w');
      RedoKeepsHistoryExactlyWhen(base, w, r, w');
    }
  }

  /** Over every run without failing undos, the state is the base with the groups below the cursor. */
  lemma {:induction false} HistoryAlongRuns<S(!new)>(run: seq<World<S>>, n: nat)
    requires n < |run| && run[0].groups == [] && run[0].cursor == 0
    requires forall k :: 0 <= k < |run| - 1 ==> GoodStep(run[k], run[k + 1])
    ensures History(run[0].state, run[n])
  {
    if n > 0 {
      HistoryAlongRuns(run, n - 1);
      assert GoodStep(run[n - 1], run[n - 1 + 1]);
      GoodStepKeepsHistory(run[0].state, run[n - 1], run[n]);
    }
  }

  // ------------------------------------------------------------------------ disabled groups

  /** No disabled group is waiting to be redone. */
  predicate DisabledBelow<S>(w: World<S>) {
    w.cursor <= |w.groups| && forall k :: w.cursor <= k < |w.groups| ==> !w.groups[k].disabled
  }

  /** Over every run at all, failing undos and redos included, no disabled group waits to be redone. */
  lemma {:induction false} DisabledNeverWaits<S(!new)>(run: seq<World<S>>, n: nat)
    requires n < |run| && run[0].groups == [] && run[0].cursor == 0
    requires forall i :: 0 <= i < |run| - 1 ==> AnyStep(run[i], run[i + 1])
    ensures DisabledBelow(run[n])
  {
    if n > 0 {
      DisabledNeverWaits(run, n - 1);
      assert AnyStep(run[n - 1], run[n - 1 + 1]);
    }
  }

  /** Over every run at all, a disabled group, once recorded, stays below the cursor forever. */
  lemma {:induction false} DisabledStaysBelow<S(!new)>(run: seq<World<S>>, m: nat, n: nat, k: nat)
    requires m <= n < |run| && run[0].groups == [] && run[0].cursor == 0
    requires forall i :: 0 <= i < |run| - 1 ==> AnyStep(run[i], run[i + 1])
    requires k < |run[m].groups| && run[m].groups[k].disabled
    ensures k < run[n].cursor <= |run[n].groups| && run[n].groups[k] == run[m].groups[k]
    decreases n - m
  {
    DisabledNeverWaits(run, m);
    if m < n {
      assert AnyStep(run[m], run[m + 1]);
      DisabledNeverWaits(run, m + 1);
      DisabledStaysBelow(run, m + 1, n, k);
    }
  }
}
