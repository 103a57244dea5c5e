/**
 * Routines and the loop that runs them on one node (walker.go:114-121,
 * 166-175, 232-241, 298-308).
 *
 * A routine is modelled by what it does to the node as a function of what
 * it observes: given the node's type, key and value, the sequence of calls
 * it makes.  `ChainFrom` is the loop as a function; `RunChain` runs it on a
 * `TreeNode` object.
 */
module Routines {
  import opened Values
  import opened Nodes

  type Routine = NodeView -> seq<Cmd>

  /** The calls of one routine applied in order; `None` if one of them panics. */
  function Run(s: NodeState, cmds: seq<Cmd>): Option<NodeState>
    decreases |cmds|
  {
    if cmds == [] then Some(s)
    else
      match Step(s, cmds[0])
      case None => None
      case Some(s') => Run(s', cmds[1..])
  }

  /**
   * How a chain ends: a routine panicked, or the node's final state with the
   * loop's `rt` (the action after the last routine that ran) and `override`
   * (some routine left the node in override).
   */
  datatype Resolution = Crashed | Resolved(state: NodeState, rt: Action, override: bool)

  /**
   * The routine loop.  With `stopOnDelete` (slices, maps, structs) it breaks
   * right after the first routine that leaves the node deleted; without it
   * (literals) every routine runs.
   */
  function ChainFrom(s: NodeState, rs: seq<Routine>, stopOnDelete: bool, rt: Action, override: bool)
    : Resolution
    decreases |rs|
  {
    if rs == [] then Resolved(s, rt, override)
    else
      match Run(s, rs[0](s.view))
      case None => Crashed
      case Some(s') =>
        if stopOnDelete && s'.action == Deleted then Resolved(s', Deleted, override)
        else ChainFrom(s', rs[1..], stopOnDelete, s'.action, override || s'.action == Override)
  }

  /** The chain as the walker starts it on a fresh node. */
  function Chain(s: NodeState, rs: seq<Routine>, stopOnDelete: bool): Resolution {
    ChainFrom(s, rs, stopOnDelete, Blank, false)
  }

  // ---------------------------------------------------------------------
  // Running routines on a node object

  method Apply(node: TreeNode, c: Cmd) returns (ok: bool)
    requires node.Valid()
    modifies node`action, node.value
    modifies if node.key == null then {} else {node.key}
    ensures node.Valid()
    ensures Step(old(node.State()), c) == if ok then Some(node.State()) else None
  {
    match c
    case DeleteNode =>
      node.Delete();
      ok := true;
    case SetValue(x) =>
      node.value.Set(x);
      ok := true;
    case SetKey(x) =>
      if node.key == null {
        ok := false;
      } else {
        node.key.Set(x);
        ok := true;
      }
  }

  /** One routine invocation `r(ctx, node)`. */
  method RunRoutine(node: TreeNode, r: Routine) returns (ok: bool)
    requires node.Valid()
    modifies node`action, node.value
    modifies if node.key == null then {} else {node.key}
    ensures node.Valid()
    ensures Run(old(node.State()), r(old(node.View()))) == if ok then Some(node.State()) else None
  {
    var cmds := r(node.View());
    var i := 0;
    while i < |cmds|
      invariant 0 <= i <= |cmds|
      invariant node.Valid()
      invariant Run(old(node.State()), cmds) == Run(node.State(), cmds[i..])
    {
      assert cmds[i..][0] == cmds[i] && cmds[i..][1..] == cmds[i + 1..];
      ok := Apply(node, cmds[i]);
      if !ok {
        return;
      }
      i := i + 1;
    }
    ok := true;
  }

  /** The routine loop of the walker on one node. */
  method RunChain(node: TreeNode, routines: seq<Routine>, stopOnDelete: bool)
    returns (crashed: bool, rt: Action, override: bool)
    requires node.Valid()
    modifies node`action, node.value
    modifies if node.key == null then {} else {node.key}
    ensures node.Valid()
    ensures Chain(old(node.State()), routines, stopOnDelete) ==
      if crashed then Crashed else Resolved(node.State(), rt, override)
  {
    rt, override := Blank, false;
    var i := 0;
    while i < |routines|
      invariant 0 <= i <= |routines|
      invariant node.Valid()
      invariant Chain(old(node.State()), routines, stopOnDelete) ==
        ChainFrom(node.State(), routines[i..], stopOnDelete, rt, override)
    {
      assert routines[i..][0] == routines[i] && routines[i..][1..] == routines[i + 1..];
      var ok := RunRoutine(node, routines[i]);
      if !ok {
        return true, rt, override;
      }
      rt := node.GetAction();
      if stopOnDelete && rt == Deleted {
        return false, rt, override;
      } else if rt == Override {
        override := true;
      }
      i := i + 1;
    }
    crashed := false;
  }

  // ---------------------------------------------------------------------
  // Properties of the node calls and of the chain

  /** Delete is absorbing: on a deleted node no sequence of calls changes anything (or it panics). */
  lemma {:induction false} RunKeepsDeleted(s: NodeState, cmds: seq<Cmd>)
    requires s.action == Deleted
    ensures Run(s, cmds) == None || Run(s, cmds) == Some(s)
    decreases |cmds|
  {
    if cmds != [] {
      RunKeepsDeleted(s, cmds[1..]);
    }
  }

  /**
   * The action after a routine: deleted exactly when the node was deleted or
   * the routine called `Delete`; blank only when it was blank and the routine
   * made no call; override otherwise.
   */
  lemma {:induction false} RunAction(s: NodeState, cmds: seq<Cmd>)
    requires Run(s, cmds).Some?
    ensures Run(s, cmds).value.action == Deleted <==> s.action == Deleted || DeleteNode in cmds
    ensures Run(s, cmds).value.action == Blank <==> s.action == Blank && cmds == []
    decreases |cmds|
  {
    if cmds != [] {
      var s' := Step(s, cmds[0]).value;
      RunAction(s', cmds[1..]);
      assert cmds == [cmds[0]] + cmds[1..];
    }
  }

  /** Calls never change the node type or the captured types of its variables. */
  lemma {:induction false} RunKeepsTypes(s: NodeState, cmds: seq<Cmd>)
    requires Run(s, cmds).Some?
    ensures Run(s, cmds).value.view.ntype == s.view.ntype
    ensures Run(s, cmds).value.view.value.t == s.view.value.t
    ensures Run(s, cmds).value.view.key.Some? == s.view.key.Some?
    ensures s.view.key.Some? ==> Run(s, cmds).value.view.key.value.t == s.view.key.value.t
    decreases |cmds|
  {
    if cmds != [] {
      RunKeepsTypes(Step(s, cmds[0]).value, cmds[1..]);
    }
  }

  /** The value a sequence of calls leaves staged: the argument of the last `Value().Set`, else `current`. */
  function LastStaged(cmds: seq<Cmd>, current: Value): Value {
    if cmds == [] then current
    else if cmds[|cmds| - 1].SetValue? then cmds[|cmds| - 1].x
    else LastStaged(cmds[..|cmds| - 1], current)
  }

  lemma {:induction false} RunAppend(s: NodeState, a: seq<Cmd>, b: seq<Cmd>)
    ensures Run(s, a + b) == if Run(s, a).None? then None else Run(Run(s, a).value, b)
    decreases |a|
  {
    if a != [] {
      assert (a + b)[0] == a[0] && (a + b)[1..] == a[1..] + b;
      if Step(s, a[0]).Some? {
        RunAppend(Step(s, a[0]).value, a[1..], b);
      }
    } else {
      assert a + b == b;
    }
  }

  /**
   * Override determinism for one sequence of calls: without a delete, the
   * staged value is the one of the last `Set` call.  `ChainLastSetWins`
   * carries it across the routines of a chain.
   */
  lemma {:induction false} LastSetWins(s: NodeState, cmds: seq<Cmd>)
    requires s.action != Deleted && DeleteNode !in cmds
    requires Run(s, cmds).Some?
    ensures Run(s, cmds).value.view.value.v == LastStaged(cmds, s.view.value.v)
    decreases |cmds|
  {
    if cmds != [] {
      var n := |cmds| - 1;
      var init := cmds[..n];
      assert cmds == init + [cmds[n]];
      RunAppend(s, init, [cmds[n]]);
      LastSetWins(s, init);
      RunAction(s, init);
    }
  }

  /**
   * The calls a chain makes, routine after routine in registration order,
   * up to and including the routine after which it stops: the one that
   * panics, or with `stopOnDelete` the one that leaves the node deleted.
   */
  function ChainCalls(s: NodeState, rs: seq<Routine>, stopOnDelete: bool): seq<Cmd>
    decreases |rs|
  {
    if rs == [] then []
    else
      var cmds := rs[0](s.view);
      match Run(s, cmds)
      case None => cmds
      case Some(s') =>
        if stopOnDelete && s'.action == Deleted then cmds
        else cmds + ChainCalls(s', rs[1..], stopOnDelete)
  }

  /**
   * A resolved chain ends in the state reached by running all its calls in
   * order on the starting node: routine boundaries leave no trace in the
   * node.
   */
  lemma {:induction false} ChainRunsCalls(s: NodeState, rs: seq<Routine>, stopOnDelete: bool,
                                          rt: Action, override: bool)
    requires ChainFrom(s, rs, stopOnDelete, rt, override).Resolved?
    ensures Run(s, ChainCalls(s, rs, stopOnDelete)) == Some(ChainFrom(s, rs, stopOnDelete, rt, override).state)
    decreases |rs|
  {
    if rs != [] {
      var cmds := rs[0](s.view);
      var s' := Run(s, cmds).value;
      if !(stopOnDelete && s'.action == Deleted) {
        var rest := ChainCalls(s', rs[1..], stopOnDelete);
        RunAppend(s, cmds, rest);
        ChainRunsCalls(s', rs[1..], stopOnDelete, s'.action, override || s'.action == Override);
      }
    }
  }

  /**
   * Override determinism across a chain: when no routine that ran deleted
   * the node, the value it ends with is the argument of the last
   * `Value().Set` made by any routine, in registration order, or the
   * node's value if none was made.
   */
  lemma ChainLastSetWins(s: NodeState, rs: seq<Routine>, stopOnDelete: bool, rt: Action, override: bool)
    requires s.action != Deleted
    requires ChainFrom(s, rs, stopOnDelete, rt, override).Resolved?
    requires DeleteNode !in ChainCalls(s, rs, stopOnDelete)
    ensures ChainFrom(s, rs, stopOnDelete, rt, override).state.view.value.v ==
      LastStaged(ChainCalls(s, rs, stopOnDelete), s.view.value.v)
  {
    ChainRunsCalls(s, rs, stopOnDelete, rt, override);
    LastSetWins(s, ChainCalls(s, rs, stopOnDelete));
  }

  /**
   * Early stop: once a chain over `rs1` has resolved with the node deleted,
   * routines registered after them are never run.
   */
  lemma {:induction false} StopAtDelete(s: NodeState, rs1: seq<Routine>, rs2: seq<Routine>,
                                        rt: Action, override: bool)
    requires rt != Deleted
    requires ChainFrom(s, rs1, true, rt, override).Resolved?
    requires ChainFrom(s, rs1, true, rt, override).rt == Deleted
    ensures ChainFrom(s, rs1 + rs2, true, rt, override) == ChainFrom(s, rs1, true, rt, override)
    decreases |rs1|
  {
    assert rs1 != [];
    assert (rs1 + rs2)[0] == rs1[0] && (rs1 + rs2)[1..] == rs1[1..] + rs2;
    var s' := Run(s, rs1[0](s.view)).value;
    if s'.action != Deleted {
      StopAtDelete(s', rs1[1..], rs2, s'.action, override || s'.action == Override);
    }
  }

  /**
   * No early stop: a chain that does not stop on delete keeps running the
   * remaining routines on a deleted node; the state stays frozen and the
   * override flag keeps its value, but a later routine can still panic.
   */
  lemma {:induction false} DeletedStaysFrozen(s: NodeState, rs: seq<Routine>, override: bool)
    requires s.action == Deleted
    ensures ChainFrom(s, rs, false, Deleted, override) == Crashed ||
            ChainFrom(s, rs, false, Deleted, override) == Resolved(s, Deleted, override)
    decreases |rs|
  {
    if rs != [] {
      RunKeepsDeleted(s, rs[0](s.view));
      if Run(s, rs[0](s.view)).Some? {
        DeletedStaysFrozen(s, rs[1..], override);
      }
    }
  }

  /**
   * A scenario for two given routines, not an all-routines property: the
   * chain on a keyless node whose first routine deletes it and whose
   * second calls `Key().Set`.  With early stop the second never runs,
   * without it the second panics.
   */
  lemma NoEarlyStopForLiterals(s: NodeState, r1: Routine, r2: Routine, x: Value)
    requires s.view.key.None? && s.action == Blank
    requires r1(s.view) == [DeleteNode]
    requires forall v :: r2(v) == [SetKey(x)]
    ensures Chain(s, [r1, r2], true) == Resolved(s.(action := Deleted), Deleted, false)
    ensures Chain(s, [r1, r2], false) == Crashed
  {
    var s' := s.(action := Deleted);
    assert Run(s, r1(s.view)) == Some(s');
    assert [r1, r2][1..] == [r2];
    assert Run(s', r2(s'.view)) == None;
    assert ChainFrom(s', [r2], false, Deleted, false) == Crashed;
    assert [r2][1..] == [];
    assert Run(s', r2(s'.view)) == None || Run(s', r2(s'.view)) == Some(s');
    assert ChainFrom(s, [r1, r2], true, Blank, false) == Resolved(s', Deleted, false);
  }

  /**
   * A scenario for two given routines: routines see what earlier routines
   * staged.  After a first routine calls `Key().Set(x)`, the second is run
   * on a view whose key holds `x` (with its captured type unchanged) and
   * the node is in override.
   */
  lemma LaterRoutineSeesStagedKey(s: NodeState, r1: Routine, r2: Routine, x: Value, stopOnDelete: bool)
    requires s.action == Blank && s.view.key.Some?
    requires r1(s.view) == [SetKey(x)]
    ensures var s1 := NodeState(s.view.(key := Some(s.view.key.value.(v := x))), Override);
      && Chain(s, [r1, r2], stopOnDelete) == ChainFrom(s1, [r2], stopOnDelete, Override, true)
      && s1.view.key.value.v == x && s1.view.key.value.t == s.view.key.value.t
  {
    var s1 := NodeState(s.view.(key := Some(s.view.key.value.(v := x))), Override);
    assert Run(s, r1(s.view)) == Some(s1);
    assert [r1, r2][1..] == [r2];
  }

  /**
   * A scenario for two given routines: a `Value().Set(x)` staged by one
   * routine and a `Delete()` by the next.  The node ends deleted, holding
   * `x`, with the override flag raised, whether or not the loop stops on
   * delete.
   */
  lemma SetThenDelete(s: NodeState, r1: Routine, r2: Routine, x: Value, stopOnDelete: bool)
    requires s.action == Blank
    requires r1(s.view) == [SetValue(x)]
    requires forall v :: r2(v) == [DeleteNode]
    ensures Chain(s, [r1, r2], stopOnDelete) ==
      Resolved(NodeState(s.view.(value := s.view.value.(v := x)), Deleted), Deleted, true)
  {
    var s1 := NodeState(s.view.(value := s.view.value.(v := x)), Override);
    assert Run(s, r1(s.view)) == Some(s1);
    assert [r1, r2][1..] == [r2];
    var s2 := s1.(action := Deleted);
    assert Run(s1, r2(s1.view)) == Some(s2);
    assert [r2][1..] == [];
    if !stopOnDelete {
      assert ChainFrom(s2, [], false, Deleted, true) == Resolved(s2, Deleted, true);
    }
    assert ChainFrom(s1, [r2], stopOnDelete, Override, true) == Resolved(s2, Deleted, true);
    assert ChainFrom(s, [r1, r2], stopOnDelete, Blank, false) ==
      ChainFrom(s1, [r2], stopOnDelete, Override, true);
  }

  /**
   * What a resolved chain reports: `rt` is the final node's action (when the
   * loop started from the node's own action), the node keeps its type, key
   * presence and captured types.
   */
  lemma {:induction false} ChainResolution(s: NodeState, rs: seq<Routine>, stopOnDelete: bool,
                                           rt: Action, override: bool)
    requires s.action == rt
    requires ChainFrom(s, rs, stopOnDelete, rt, override).Resolved?
    ensures var res := ChainFrom(s, rs, stopOnDelete, rt, override);
      && res.rt == res.state.action
      && res.state.view.ntype == s.view.ntype
      && res.state.view.value.t == s.view.value.t
      && res.state.view.key.Some? == s.view.key.Some?
      && (s.view.key.Some? ==> res.state.view.key.value.t == s.view.key.value.t)
    decreases |rs|
  {
    if rs != [] {
      var s' := Run(s, rs[0](s.view)).value;
      RunKeepsTypes(s, rs[0](s.view));
      RunAction(s, rs[0](s.view));
      if !(stopOnDelete && s'.action == Deleted) {
        ChainResolution(s', rs[1..], stopOnDelete, s'.action, override || s'.action == Override);
      }
    }
  }
}
