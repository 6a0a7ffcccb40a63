/**
 * `nfa_to_dfa` (core.py:43-76): the subset construction over the epsilon-free
 * relation, with a worklist of unmarked subsets and a dead state that is added
 * only when some subset has no move on some symbol.
 */
module SubsetConstruction {
  import opened Automata
  import EpsilonClosure
  import EpsilonRemoval

  /** The move of the subset automaton: the union of the members' moves, or the dead state when empty. */
  function DMove(noE: Relation, d: DState, a: Symbol): (r: DState)
    ensures r == Dead <==> d == Dead || Step(noE, a, d.members) == {}
    ensures r != Dead ==> r.members == Step(noE, a, d.members)
  {
    match d
    case Dead => Dead
    case Subset(m) =>
      var dest := Step(noE, a, m);
      if dest == {} then Dead else Subset(dest)
  }

  /** Every subset of `universe`, as a state of the subset automaton. */
  ghost function AllSubsets(universe: set<State>): set<DState> {
    set m | m <= universe :: Subset(m)
  }

  /**
   * What expanding `S` over the symbols `syms` has done, starting from
   * `states0`, `unmarked0`, `trans0` and `hasDead0`: new subsets are appended
   * to the states (without repeats) and to the worklist, the move of `S` on
   * every symbol of `syms` is recorded and leads to a listed state or to the
   * dead state, no other move changes, and the dead flag is raised exactly
   * when one of those moves is empty.
   */
  ghost predicate Expanded(noE: Relation, S: DState, syms: seq<Symbol>,
                           states0: seq<DState>, unmarked0: seq<DState>, trans0: DRelation, hasDead0: bool,
                           states: seq<DState>, unmarked: seq<DState>, trans: DRelation, hasDead: bool) {
    states0 <= states && Distinct(states) &&
    unmarked == unmarked0 + states[|states0|..] &&
    (forall i | |states0| <= i < |states| :: states[i].Subset? && states[i].members <= Targets(noE)) &&
    (forall k :: k in trans <==> k in trans0 || (k.0 == S && k.1 in syms)) &&
    (forall k | k in trans :: trans[k] == if k.0 == S && k.1 in syms then DMove(noE, S, k.1) else trans0[k]) &&
    (forall a | a in syms :: DMove(noE, S, a) == Dead || DMove(noE, S, a) in states) &&
    (hasDead <==> hasDead0 || exists a | a in syms :: DMove(noE, S, a) == Dead)
  }

  /**
   * The inner loop `for a in dfa_alphabet` of core.py:55-67 for the popped
   * subset `S`: every move is recorded, and each new non-empty subset is
   * appended both to `dfa_states` and to the worklist.
   */
  method Expand(S: DState, dfaAlphabet: seq<Symbol>, noE: Relation,
                states0: seq<DState>, unmarked0: seq<DState>, trans0: DRelation, hasDead0: bool)
    returns (states: seq<DState>, unmarked: seq<DState>, trans: DRelation, hasDead: bool)
    requires S.Subset? && Distinct(states0)
    ensures Expanded(noE, S, dfaAlphabet, states0, unmarked0, trans0, hasDead0, states, unmarked, trans, hasDead)
    ensures dfaAlphabet == [] ==> states == states0
  {
    states, unmarked, trans, hasDead := states0, unmarked0, trans0, hasDead0;
    var j := 0;
    while j < |dfaAlphabet|
      invariant 0 <= j <= |dfaAlphabet|
      invariant Expanded(noE, S, dfaAlphabet[..j], states0, unmarked0, trans0, hasDead0, states, unmarked, trans, hasDead)
      invariant j == 0 ==> states == states0
    {
      var a := dfaAlphabet[j];
      var dest := EpsilonRemoval.StepFrom(noE, a, S.members);
      ghost var syms := dfaAlphabet[..j];
      assert dfaAlphabet[..j + 1] == syms + [a];
      if dest != {} {
        var destFrozen := Subset(dest);
        if destFrozen !in states {
          EpsilonRemoval.StepInTargets(noE, a, S.members);
          ExpandGrows(noE, S, syms, states0, unmarked0, trans0, hasDead0, states, unmarked, trans, hasDead, destFrozen);
          states := states + [destFrozen];
          unmarked := unmarked + [destFrozen];
        }
        ExpandRecords(noE, S, syms, a, states0, unmarked0, trans0, hasDead0, states, unmarked, trans, hasDead);
        trans := trans[(S, a) := destFrozen];
      } else {
        ExpandRecords(noE, S, syms, a, states0, unmarked0, trans0, hasDead0, states, unmarked, trans, hasDead);
        trans := trans[(S, a) := Dead];
        hasDead := true;
      }
      j := j + 1;
    }
    assert dfaAlphabet[..j] == dfaAlphabet;
  }

  /** Appending a new subset of the targets keeps `Expanded`. */
  lemma ExpandGrows(noE: Relation, S: DState, syms: seq<Symbol>,
                    states0: seq<DState>, unmarked0: seq<DState>, trans0: DRelation, hasDead0: bool,
                    states: seq<DState>, unmarked: seq<DState>, trans: DRelation, hasDead: bool, T: DState)
    requires Expanded(noE, S, syms, states0, unmarked0, trans0, hasDead0, states, unmarked, trans, hasDead)
    requires T !in states && T.Subset? && T.members <= Targets(noE)
    ensures Expanded(noE, S, syms, states0, unmarked0, trans0, hasDead0, states + [T], unmarked + [T], trans, hasDead)
  {
    var states' := states + [T];
    assert states'[..|states|] == states;
    assert states'[|states0|..] == states[|states0|..] + [T];
    forall i | |states0| <= i < |states'| ensures states'[i].Subset? && states'[i].members <= Targets(noE) {
      if i < |states| { assert states'[i] == states[i]; }
    }
    forall a | a in syms ensures DMove(noE, S, a) == Dead || DMove(noE, S, a) in states' {
    }
  }

  /** Recording the move of `S` on `a`, once its target is listed, extends `Expanded` to `syms + [a]`. */
  lemma ExpandRecords(noE: Relation, S: DState, syms: seq<Symbol>, a: Symbol,
                      states0: seq<DState>, unmarked0: seq<DState>, trans0: DRelation, hasDead0: bool,
                      states: seq<DState>, unmarked: seq<DState>, trans: DRelation, hasDead: bool)
    requires Expanded(noE, S, syms, states0, unmarked0, trans0, hasDead0, states, unmarked, trans, hasDead)
    requires DMove(noE, S, a) == Dead || DMove(noE, S, a) in states
    ensures Expanded(noE, S, syms + [a], states0, unmarked0, trans0, hasDead0, states, unmarked,
                     trans[(S, a) := DMove(noE, S, a)], hasDead || DMove(noE, S, a) == Dead)
  {
    RecordMove(noE, S, syms, a, trans0, trans);
    RecordDead(noE, S, syms, a, hasDead0, hasDead);
  }

  /** Recording the move of `S` on `a` extends the recorded keys and moves to `syms + [a]`. */
  lemma RecordMove(noE: Relation, S: DState, syms: seq<Symbol>, a: Symbol, trans0: DRelation, trans: DRelation)
    requires forall k :: k in trans <==> k in trans0 || (k.0 == S && k.1 in syms)
    requires forall k | k in trans :: trans[k] == if k.0 == S && k.1 in syms then DMove(noE, S, k.1) else trans0[k]
    ensures forall k :: k in trans[(S, a) := DMove(noE, S, a)] <==> k in trans0 || (k.0 == S && k.1 in syms + [a])
    ensures forall k | k in trans[(S, a) := DMove(noE, S, a)] ::
      trans[(S, a) := DMove(noE, S, a)][k] == if k.0 == S && k.1 in syms + [a] then DMove(noE, S, k.1) else trans0[k]
  {
    var trans' := trans[(S, a) := DMove(noE, S, a)];
    forall k ensures k in trans' <==> k in trans0 || (k.0 == S && k.1 in syms + [a]) {
      assert k.1 in syms + [a] <==> k.1 in syms || k.1 == a;
    }
    forall k | k in trans' ensures trans'[k] == if k.0 == S && k.1 in syms + [a] then DMove(noE, S, k.1) else trans0[k] {
      assert k.1 in syms + [a] <==> k.1 in syms || k.1 == a;
    }
  }

  /** Recording the move of `S` on `a` raises the dead flag exactly when that move is empty. */
  lemma RecordDead(noE: Relation, S: DState, syms: seq<Symbol>, a: Symbol, hasDead0: bool, hasDead: bool)
    requires hasDead <==> hasDead0 || exists b | b in syms :: DMove(noE, S, b) == Dead
    ensures (hasDead || DMove(noE, S, a) == Dead) <==> hasDead0 || exists b | b in syms + [a] :: DMove(noE, S, b) == Dead
  {
    if DMove(noE, S, a) == Dead {
      assert a in syms + [a];
    }
    if exists b | b in syms + [a] :: DMove(noE, S, b) == Dead {
      var b :| b in syms + [a] && DMove(noE, S, b) == Dead;
      if b != a { assert b in syms; }
    }
    if exists b | b in syms :: DMove(noE, S, b) == Dead {
      var b :| b in syms && DMove(noE, S, b) == Dead;
      assert b in syms + [a];
    }
  }

  /** The subsets in `states` but no longer in `unmarked` have all their moves recorded. */
  ghost predicate Explored(noE: Relation, states: seq<DState>, unmarked: seq<DState>, syms: seq<Symbol>,
                           trans: DRelation, hasDead: bool) {
    (forall k :: k in trans <==> k.0 in states && k.0 !in unmarked && k.1 in syms) &&
    (forall k | k in trans :: trans[k] == DMove(noE, k.0, k.1)) &&
    (forall k | k in trans :: trans[k] == Dead || trans[k] in states) &&
    (hasDead <==> exists k | k in trans :: trans[k] == Dead)
  }

  /** A state appended after `states0` is not one of its states. */
  lemma NewNotOld(states0: seq<DState>, states: seq<DState>, i: int)
    requires states0 <= states && Distinct(states) && |states0| <= i < |states|
    ensures states[i] !in states0
  {
    forall j | 0 <= j < |states0| ensures states0[j] != states[i] {
      assert states0[j] == states[j];
    }
  }

  /** The states added after `states0` are exactly the new worklist entries, and none was known before. */
  lemma AddedAreNew(states0: seq<DState>, states: seq<DState>)
    requires states0 <= states && Distinct(states)
    ensures states == states0 + states[|states0|..]
    ensures forall T | T in states[|states0|..] :: T !in states0
  {
    var added := states[|states0|..];
    assert states == states0 + added;
    forall T | T in added ensures T !in states0 {
      var i :| 0 <= i < |added| && added[i] == T;
      NewNotOld(states0, states, |states0| + i);
    }
  }

  /** After expanding `S`, the recorded keys are those of the explored subsets. */
  lemma ExploredKeys(syms: seq<Symbol>, S: DState, states0: seq<DState>, unmarked0: seq<DState>, trans0: DRelation,
                     states: seq<DState>, unmarked: seq<DState>, trans: DRelation)
    requires forall k :: k in trans0 <==> k.0 in states0 && k.0 !in unmarked0 + [S] && k.1 in syms
    requires S in states0 && S !in unmarked0
    requires states0 <= states && Distinct(states)
    requires unmarked == unmarked0 + states[|states0|..]
    requires forall k :: k in trans <==> k in trans0 || (k.0 == S && k.1 in syms)
    ensures forall k :: k in trans <==> k.0 in states && k.0 !in unmarked && k.1 in syms
  {
    AddedAreNew(states0, states);
    forall k ensures k in trans <==> k.0 in states && k.0 !in unmarked && k.1 in syms {
      if k.0 in states[|states0|..] {
        assert k.0 !in states0;
        assert k.0 in unmarked;
        assert k !in trans0;
      } else {
        assert k.0 in states <==> k.0 in states0;
        assert k.0 in unmarked <==> k.0 in unmarked0;
      }
    }
  }

  /** After expanding `S`, every recorded move is the subset move and leads to a listed state. */
  lemma ExploredMoves(noE: Relation, syms: seq<Symbol>, S: DState, states0: seq<DState>, trans0: DRelation,
                      states: seq<DState>, trans: DRelation)
    requires forall k | k in trans0 :: trans0[k] == DMove(noE, k.0, k.1)
    requires forall k | k in trans0 :: trans0[k] == Dead || trans0[k] in states0
    requires states0 <= states
    requires forall k | k in trans :: k in trans0 || (k.0 == S && k.1 in syms)
    requires forall k | k in trans :: trans[k] == if k.0 == S && k.1 in syms then DMove(noE, S, k.1) else trans0[k]
    requires forall a | a in syms :: DMove(noE, S, a) == Dead || DMove(noE, S, a) in states
    ensures forall k | k in trans :: trans[k] == DMove(noE, k.0, k.1)
    ensures forall k | k in trans :: trans[k] == Dead || trans[k] in states
  {
    forall k | k in trans ensures trans[k] == DMove(noE, k.0, k.1) && (trans[k] == Dead || trans[k] in states) {
      if !(k.0 == S && k.1 in syms) {
        assert k in trans0;
        assert trans0[k] == Dead || trans0[k] in states0;
      }
    }
  }

  /** After expanding `S`, the dead-state flag still records whether some move is empty. */
  lemma ExploredDead(noE: Relation, syms: seq<Symbol>, S: DState, trans0: DRelation, hasDead0: bool,
                     trans: DRelation, hasDead: bool)
    requires hasDead0 <==> exists k | k in trans0 :: trans0[k] == Dead
    requires forall k | k in trans0 :: k.0 != S
    requires forall k :: k in trans <==> k in trans0 || (k.0 == S && k.1 in syms)
    requires forall k | k in trans :: trans[k] == if k.0 == S && k.1 in syms then DMove(noE, S, k.1) else trans0[k]
    requires hasDead <==> hasDead0 || exists a | a in syms :: DMove(noE, S, a) == Dead
    ensures hasDead <==> exists k | k in trans :: trans[k] == Dead
  {
    if hasDead {
      if hasDead0 {
        var k :| k in trans0 && trans0[k] == Dead;
        assert k in trans && trans[k] == Dead;
      } else {
        var a :| a in syms && DMove(noE, S, a) == Dead;
        assert (S, a) in trans && trans[(S, a)] == Dead;
      }
    }
    if exists k | k in trans :: trans[k] == Dead {
      var k :| k in trans && trans[k] == Dead;
      if !(k.0 == S && k.1 in syms) {
        assert k in trans0;
      }
    }
  }

  /** One round of the worklist loop keeps `Explored`: `S` moves from the worklist to the explored subsets. */
  lemma ExploredStep(noE: Relation, syms: seq<Symbol>, S: DState,
                     states0: seq<DState>, unmarked0: seq<DState>, trans0: DRelation, hasDead0: bool,
                     states: seq<DState>, unmarked: seq<DState>, trans: DRelation, hasDead: bool)
    requires Explored(noE, states0, unmarked0 + [S], syms, trans0, hasDead0)
    requires S in states0 && S !in unmarked0
    requires Expanded(noE, S, syms, states0, unmarked0, trans0, hasDead0, states, unmarked, trans, hasDead)
    ensures Explored(noE, states, unmarked, syms, trans, hasDead)
  {
    ExploredKeys(syms, S, states0, unmarked0, trans0, states, unmarked, trans);
    ExploredMoves(noE, syms, S, states0, trans0, states, trans);
    forall k | k in trans0 ensures k.0 != S {
      assert k.0 !in unmarked0 + [S];
    }
    ExploredDead(noE, syms, S, trans0, hasDead0, trans, hasDead);
  }

  /** The invariant of the worklist loop. */
  ghost predicate Worklist(noE: Relation, syms: seq<Symbol>, universe: set<State>, start: State,
                           states: seq<DState>, unmarked: seq<DState>, trans: DRelation, hasDead: bool) {
    |states| >= 1 && states[0] == Subset({start}) && Distinct(states) &&
    (forall S | S in states :: S.Subset? && S.members <= universe) &&
    (forall S | S in unmarked :: S in states) &&
    Distinct(unmarked) &&
    Explored(noE, states, unmarked, syms, trans, hasDead) &&
    (syms == [] ==> states == [Subset({start})])
  }

  /** One round of the worklist loop: pop the last unmarked subset and expand it. */
  method Round(noE: Relation, syms: seq<Symbol>, ghost universe: set<State>, start: State,
               states0: seq<DState>, unmarked0: seq<DState>, trans0: DRelation, hasDead0: bool)
    returns (states: seq<DState>, unmarked: seq<DState>, trans: DRelation, hasDead: bool)
    requires Targets(noE) <= universe && unmarked0 != []
    requires Worklist(noE, syms, universe, start, states0, unmarked0, trans0, hasDead0)
    ensures Worklist(noE, syms, universe, start, states, unmarked, trans, hasDead)
    ensures states0 <= states && Elems(states0) <= Elems(states) <= AllSubsets(universe)
    ensures |states| > |states0| ==> |AllSubsets(universe) - Elems(states)| < |AllSubsets(universe) - Elems(states0)|
    ensures |states| == |states0| ==> states == states0 && |unmarked| < |unmarked0|
  {
    var S := unmarked0[|unmarked0| - 1];
    var rest := unmarked0[..|unmarked0| - 1];
    assert unmarked0 == rest + [S];
    states, unmarked, trans, hasDead := Expand(S, syms, noE, states0, rest, trans0, hasDead0);
    RoundKeeps(noE, syms, universe, start, S, states0, rest, trans0, hasDead0, states, unmarked, trans, hasDead);
  }

  /** In a list without repeats, the last entry does not occur before. */
  lemma LastNotInFront(u: seq<DState>)
    requires Distinct(u) && u != []
    ensures u[|u| - 1] !in u[..|u| - 1]
  {
    var front := u[..|u| - 1];
    forall i | 0 <= i < |front| ensures front[i] != u[|u| - 1] {
      assert front[i] == u[i];
    }
  }

  /** Expanding the last entry `S` of the worklist keeps `Worklist` and either grows the states or shrinks the worklist. */
  lemma RoundKeeps(noE: Relation, syms: seq<Symbol>, universe: set<State>, start: State, S: DState,
                   states0: seq<DState>, rest: seq<DState>, trans0: DRelation, hasDead0: bool,
                   states: seq<DState>, unmarked: seq<DState>, trans: DRelation, hasDead: bool)
    requires Targets(noE) <= universe
    requires Worklist(noE, syms, universe, start, states0, rest + [S], trans0, hasDead0)
    requires Expanded(noE, S, syms, states0, rest, trans0, hasDead0, states, unmarked, trans, hasDead)
    requires syms == [] ==> states == states0
    ensures Worklist(noE, syms, universe, start, states, unmarked, trans, hasDead)
    ensures Elems(states0) <= Elems(states) <= AllSubsets(universe)
    ensures |states| > |states0| ==> |AllSubsets(universe) - Elems(states)| < |AllSubsets(universe) - Elems(states0)|
    ensures |states| == |states0| ==> states == states0 && unmarked == rest
  {
    assert S in rest + [S];
    LastNotInFront(rest + [S]);
    assert (rest + [S])[..|rest|] == rest;
    forall T | T in rest ensures T in states0 {
      assert T in rest + [S];
    }
    assert Distinct(rest) by {
      var u := rest + [S];
      forall i, j | 0 <= i < j < |rest| ensures rest[i] != rest[j] {
        assert u[i] == rest[i] && u[j] == rest[j];
      }
    }
    ExploredStep(noE, syms, S, states0, rest, trans0, hasDead0, states, unmarked, trans, hasDead);
    GrowthStep(AllSubsets(universe), universe, noE, states0, rest, states, unmarked);
    assert states[0] == states0[0];
    if |states| == |states0| {
      assert states == states0[..|states|];
    }
  }

  /** The worklist loop `while unmarked: ...` of core.py:53-67, from `{start}`. */
  method Explore(dfaAlphabet: seq<Symbol>, noE: Relation, start: State)
    returns (dfaStates: seq<DState>, dfaTrans: DRelation, hasDead: bool)
    ensures |dfaStates| >= 1 && dfaStates[0] == Subset({start}) && Distinct(dfaStates)
    ensures forall S | S in dfaStates :: S.Subset?
    ensures Explored(noE, dfaStates, [], dfaAlphabet, dfaTrans, hasDead)
    ensures dfaAlphabet == [] ==> dfaStates == [Subset({start})]
  {
    dfaStates := [Subset({start})];
    var unmarked := [Subset({start})];
    dfaTrans := map[];
    hasDead := false;
    ghost var universe := {start} + Targets(noE);
    ghost var all := AllSubsets(universe);
    while unmarked != []
      invariant Worklist(noE, dfaAlphabet, universe, start, dfaStates, unmarked, dfaTrans, hasDead)
      decreases |all - Elems(dfaStates)|, |unmarked|
    {
      dfaStates, unmarked, dfaTrans, hasDead := Round(noE, dfaAlphabet, universe, start, dfaStates, unmarked, dfaTrans, hasDead);
    }
  }

  /** The appended subsets are new, stay inside the universe, and keep the worklist free of repeats. */
  lemma GrowthStep(all: set<DState>, universe: set<State>, noE: Relation,
                   states0: seq<DState>, unmarked0: seq<DState>, states: seq<DState>, unmarked: seq<DState>)
    requires all == AllSubsets(universe) && Targets(noE) <= universe
    requires forall S | S in states0 :: S.Subset? && S.members <= universe
    requires forall T | T in unmarked0 :: T in states0
    requires Distinct(unmarked0)
    requires states0 <= states && Distinct(states)
    requires unmarked == unmarked0 + states[|states0|..]
    requires forall i | |states0| <= i < |states| :: states[i].Subset? && states[i].members <= Targets(noE)
    ensures forall S | S in states :: S.Subset? && S.members <= universe
    ensures forall S | S in unmarked :: S in states
    ensures Distinct(unmarked)
    ensures Elems(states0) <= Elems(states) <= all
    ensures |states| > |states0| ==> |all - Elems(states)| < |all - Elems(states0)|
  {
    forall S | S in states ensures S.Subset? && S.members <= universe {
      var i :| 0 <= i < |states| && states[i] == S;
      if i < |states0| { assert states0[i] == S; }
    }
    forall S | S in states ensures S in all {
      assert S == Subset(S.members);
    }
    forall i, j | 0 <= i < j < |unmarked| ensures unmarked[i] != unmarked[j] {
      if j >= |unmarked0| {
        assert unmarked[j] == states[|states0| + j - |unmarked0|];
        if i >= |unmarked0| {
          assert unmarked[i] == states[|states0| + i - |unmarked0|];
        } else {
          assert unmarked[i] in states0;
          NewNotOld(states0, states, |states0| + j - |unmarked0|);
        }
      }
    }
    if |states| > |states0| {
      var T := states[|states0|];
      NewNotOld(states0, states, |states0|);
      assert T in Elems(states) - Elems(states0);
      EpsilonClosure.FewerLeft(all, Elems(states0), Elems(states));
    }
  }

  /** `dfa_states.append(dead_state)` and its self-loops (core.py:69-72). */
  method AddDead(dfaAlphabet: seq<Symbol>, states0: seq<DState>, trans0: DRelation)
    returns (dfaStates: seq<DState>, dfaTrans: DRelation)
    requires forall k | k in trans0 :: k.0 != Dead
    ensures dfaStates == states0 + [Dead]
    ensures forall k :: k in dfaTrans <==> k in trans0 || (k.0 == Dead && k.1 in dfaAlphabet)
    ensures forall k | k in dfaTrans :: dfaTrans[k] == if k.0 == Dead then Dead else trans0[k]
  {
    dfaStates := states0 + [Dead];
    dfaTrans := trans0;
    var j := 0;
    while j < |dfaAlphabet|
      invariant 0 <= j <= |dfaAlphabet|
      invariant forall k :: k in dfaTrans <==> k in trans0 || (k.0 == Dead && k.1 in dfaAlphabet[..j])
      invariant forall k | k in dfaTrans :: dfaTrans[k] == if k.0 == Dead then Dead else trans0[k]
    {
      dfaTrans := dfaTrans[(Dead, dfaAlphabet[j]) := Dead];
      assert dfaAlphabet[..j + 1] == dfaAlphabet[..j] + [dfaAlphabet[j]];
      j := j + 1;
    }
    assert dfaAlphabet[..j] == dfaAlphabet;
  }

  /** `for S in dfa_states: if any(s in final_states for s in S): dfa_finals.add(S)` (core.py:73-75). */
  method FinalsOf(dfaStates: seq<DState>, finals: set<State>) returns (dfaFinals: set<DState>)
    ensures forall S :: S in dfaFinals <==> S in dfaStates && S.Subset? && S.members * finals != {}
  {
    dfaFinals := {};
    var i := 0;
    while i < |dfaStates|
      invariant 0 <= i <= |dfaStates|
      invariant forall S :: S in dfaFinals <==> S in dfaStates[..i] && S.Subset? && S.members * finals != {}
    {
      var S := dfaStates[i];
      if S.Subset? && exists s :: s in S.members && s in finals {
        ghost var s :| s in S.members && s in finals;
        assert s in S.members * finals;
        dfaFinals := dfaFinals + {S};
      } else {
        assert !S.Subset? || S.members * finals == {};
      }
      assert dfaStates[..i + 1] == dfaStates[..i] + [S];
      i := i + 1;
    }
    assert dfaStates[..i] == dfaStates;
  }

  /** `has_dead_state` is set exactly when some explored subset has an empty move. */
  lemma DeadNeeded(noE: Relation, alphabet: seq<Symbol>, eps: Symbol, syms: seq<Symbol>,
                   explored: seq<DState>, trans: DRelation, hasDead: bool)
    requires syms == Without(alphabet, eps)
    requires Explored(noE, explored, [], syms, trans, hasDead)
    requires forall S | S in explored :: S.Subset?
    ensures hasDead <==> exists S, a :: S in explored && S != Dead && a in alphabet && a != eps && DMove(noE, S, a) == Dead
  {
    if hasDead {
      var k :| k in trans && trans[k] == Dead;
      assert k.0 in explored && k.1 in syms;
      assert k.0 != Dead && DMove(noE, k.0, k.1) == Dead;
    }
    if exists S, a :: S in explored && S != Dead && a in alphabet && a != eps && DMove(noE, S, a) == Dead {
      var S, a :| S in explored && S != Dead && a in alphabet && a != eps && DMove(noE, S, a) == Dead;
      assert (S, a) in trans;
    }
  }

  /**
   * Returns `(dfa_states, dfa_trans, dfa_start, dfa_finals)`. States are listed
   * in discovery order from `{start}`; the dead state, when present, comes last,
   * loops on every symbol and is never accepting.
   */
  method NfaToDfa(alphabet: seq<Symbol>, eps: Symbol, noE: Relation, start: State, finals: set<State>)
    returns (dfaStates: seq<DState>, dfaTrans: DRelation, dfaStart: DState, dfaFinals: set<DState>)
    ensures dfaStart == Subset({start}) && |dfaStates| >= 1 && dfaStates[0] == dfaStart
    ensures Distinct(dfaStates)
    ensures forall S, a :: (S, a) in dfaTrans <==> S in dfaStates && a in alphabet && a != eps
    ensures forall k | k in dfaTrans :: dfaTrans[k] == DMove(noE, k.0, k.1) && dfaTrans[k] in dfaStates
    ensures Dead in dfaStates <==>
      exists S, a :: S in dfaStates && S != Dead && a in alphabet && a != eps && DMove(noE, S, a) == Dead
    ensures Dead in dfaStates ==> dfaStates[|dfaStates| - 1] == Dead
    ensures Without(alphabet, eps) == [] ==> dfaStates == [dfaStart]
    ensures forall S :: S in dfaFinals <==> S in dfaStates && S.Subset? && S.members * finals != {}
  {
    dfaStart := Subset({start});
    var dfaAlphabet := Without(alphabet, eps);
    var hasDead;
    dfaStates, dfaTrans, hasDead := Explore(dfaAlphabet, noE, start);
    ghost var explored := dfaStates;
    ghost var exploredTrans := dfaTrans;
    DeadNeeded(noE, alphabet, eps, dfaAlphabet, dfaStates, dfaTrans, hasDead);
    if hasDead {
      forall k | k in dfaTrans ensures k.0 != Dead {
        assert k.0 in explored;
      }
      dfaStates, dfaTrans := AddDead(dfaAlphabet, dfaStates, dfaTrans);
      DeadAppended(noE, alphabet, eps, dfaAlphabet, explored, exploredTrans, dfaStates, dfaTrans);
    } else {
      NoDeadNeeded(noE, alphabet, eps, dfaAlphabet, explored, dfaTrans);
    }
    dfaFinals := FinalsOf(dfaStates, finals);
  }

  /** Without an empty move, the explored subsets and their moves are the whole subset automaton. */
  lemma NoDeadNeeded(noE: Relation, alphabet: seq<Symbol>, eps: Symbol, syms: seq<Symbol>,
                     explored: seq<DState>, trans: DRelation)
    requires syms == Without(alphabet, eps)
    requires forall S | S in explored :: S.Subset?
    requires Explored(noE, explored, [], syms, trans, false)
    ensures forall S, a :: (S, a) in trans <==> S in explored && a in alphabet && a != eps
    ensures forall k | k in trans :: trans[k] == DMove(noE, k.0, k.1) && trans[k] in explored
    ensures Dead !in explored
  {
    forall S, a ensures (S, a) in trans <==> S in explored && a in alphabet && a != eps {
      assert (S, a).0 == S && (S, a).1 == a;
    }
  }

  /** A list of subsets stays free of repeats when the dead state is appended. */
  lemma DistinctWithDead(explored: seq<DState>)
    requires Distinct(explored) && forall S | S in explored :: S.Subset?
    ensures Distinct(explored + [Dead])
  {
    var all := explored + [Dead];
    forall i, j | 0 <= i < j < |all| ensures all[i] != all[j] {
      assert all[i] == explored[i];
      if j < |explored| {
        assert all[j] == explored[j];
      } else {
        assert all[i].Subset?;
      }
    }
  }

  /** With an empty move, appending the dead state and its self-loops completes the subset automaton. */
  lemma DeadAppended(noE: Relation, alphabet: seq<Symbol>, eps: Symbol, syms: seq<Symbol>,
                     explored: seq<DState>, trans0: DRelation, dfaStates: seq<DState>, dfaTrans: DRelation)
    requires syms == Without(alphabet, eps)
    requires Distinct(explored) && forall S | S in explored :: S.Subset?
    requires Explored(noE, explored, [], syms, trans0, true)
    requires dfaStates == explored + [Dead]
    requires forall k :: k in dfaTrans <==> k in trans0 || (k.0 == Dead && k.1 in syms)
    requires forall k | k in dfaTrans :: dfaTrans[k] == if k.0 == Dead then Dead else trans0[k]
    ensures Distinct(dfaStates)
    ensures forall S, a :: (S, a) in dfaTrans <==> S in dfaStates && a in alphabet && a != eps
    ensures forall k | k in dfaTrans :: dfaTrans[k] == DMove(noE, k.0, k.1) && dfaTrans[k] in dfaStates
  {
    DistinctWithDead(explored);
    DeadKeys(alphabet, eps, syms, explored, trans0, dfaTrans);
    DeadMoves(noE, syms, explored, trans0, dfaTrans);
  }

  /** The keys of the completed relation: every listed state, dead or not, on every non-epsilon symbol. */
  lemma DeadKeys(alphabet: seq<Symbol>, eps: Symbol, syms: seq<Symbol>,
                 explored: seq<DState>, trans0: DRelation, dfaTrans: DRelation)
    requires syms == Without(alphabet, eps)
    requires forall k :: k in trans0 <==> k.0 in explored && k.0 !in [] && k.1 in syms
    requires forall k :: k in dfaTrans <==> k in trans0 || (k.0 == Dead && k.1 in syms)
    ensures forall S, a :: (S, a) in dfaTrans <==> S in explored + [Dead] && a in alphabet && a != eps
  {
    forall S, a ensures (S, a) in dfaTrans <==> S in explored + [Dead] && a in alphabet && a != eps {
      var k := (S, a);
      assert k.0 == S && k.1 == a;
      assert S in explored + [Dead] <==> S in explored || S == Dead;
    }
  }

  /** The moves of the completed relation: the subset moves, with the dead state looping on itself. */
  lemma DeadMoves(noE: Relation, syms: seq<Symbol>, explored: seq<DState>, trans0: DRelation, dfaTrans: DRelation)
    requires forall k :: k in trans0 <==> k.0 in explored && k.0 !in [] && k.1 in syms
    requires forall k | k in trans0 :: trans0[k] == DMove(noE, k.0, k.1)
    requires forall k | k in trans0 :: trans0[k] == Dead || trans0[k] in explored
    requires forall k :: k in dfaTrans <==> k in trans0 || (k.0 == Dead && k.1 in syms)
    requires forall k | k in dfaTrans :: dfaTrans[k] == if k.0 == Dead then Dead else trans0[k]
    ensures forall k | k in dfaTrans :: dfaTrans[k] == DMove(noE, k.0, k.1) && dfaTrans[k] in explored + [Dead]
  {
    forall k | k in dfaTrans ensures dfaTrans[k] == DMove(noE, k.0, k.1) && dfaTrans[k] in explored + [Dead] {
      if k.0 != Dead {
        assert k in trans0;
      }
    }
  }
}
