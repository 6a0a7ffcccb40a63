/**
 * The languages of the four automata of the pipeline, and the proof that each
 * stage of core.py keeps the language: the epsilon-free NFA of
 * `remove_epsilon`, the subset automaton of `nfa_to_dfa` and the quotient of
 * `minimize_dfa` accept exactly the words the epsilon-NFA accepts.
 */
module Languages {
  import opened Automata
  import opened EpsilonClosure
  import opened EpsilonRemoval
  import opened SubsetConstruction
  import opened Minimization

  // ---------------------------------------------------------------------------
  // The four acceptance relations

  /**
   * The states an epsilon-NFA can be in after reading `w` from `S`: close,
   * then take a `w[0]`-edge, and so on, closing once more at the end.
   */
  ghost function EReach(enfa: Relation, eps: Symbol, S: set<State>, w: seq<Symbol>): set<State>
    decreases |w|
  {
    if w == [] then CloseSet(enfa, eps, S)
    else EReach(enfa, eps, Step(enfa, w[0], CloseSet(enfa, eps, S)), w[1..])
  }

  ghost predicate EAccepts(enfa: Relation, eps: Symbol, finals: set<State>, s: State, w: seq<Symbol>) {
    EReach(enfa, eps, {s}, w) * finals != {}
  }

  /** The states an epsilon-free NFA can be in after reading `w` from `S`. */
  function NReach(noE: Relation, S: set<State>, w: seq<Symbol>): set<State>
    decreases |w|
  {
    if w == [] then S else NReach(noE, Step(noE, w[0], S), w[1..])
  }

  predicate NAccepts(noE: Relation, finals: set<State>, s: State, w: seq<Symbol>) {
    NReach(noE, {s}, w) * finals != {}
  }

  /** The run of the minimised automaton, whose states are block indices. */
  function MRun(minTrans: map<(nat, Symbol), nat>, i: nat, w: seq<Symbol>): Option<nat>
    decreases |w|
  {
    if w == [] then Some(i)
    else if (i, w[0]) in minTrans then MRun(minTrans, minTrans[(i, w[0])], w[1..])
    else None
  }

  predicate MAccepts(minTrans: map<(nat, Symbol), nat>, minFinals: set<nat>, i: nat, w: seq<Symbol>) {
    var r := MRun(minTrans, i, w);
    r.Some? && r.value in minFinals
  }

  // ---------------------------------------------------------------------------
  // Closure algebra

  /** A set is closed when closing it adds nothing. */
  ghost predicate EpsClosed(enfa: Relation, eps: Symbol, X: set<State>) {
    CloseSet(enfa, eps, X) == X
  }

  lemma CloseSetContains(enfa: Relation, eps: Symbol, S: set<State>)
    ensures S <= CloseSet(enfa, eps, S)
  {
    forall x | x in S ensures x in CloseSet(enfa, eps, S) {
      ClosureHasState(enfa, eps, x);
    }
  }

  /** Closing twice is closing once. */
  lemma CloseSetIdempotent(enfa: Relation, eps: Symbol, S: set<State>)
    ensures EpsClosed(enfa, eps, CloseSet(enfa, eps, S))
  {
    var c := CloseSet(enfa, eps, S);
    CloseSetContains(enfa, eps, c);
    forall y | y in CloseSet(enfa, eps, c) ensures y in c {
      var x :| x in c && y in EpsClosure(enfa, eps, x);
      var s :| s in S && x in EpsClosure(enfa, eps, s);
      ClosureTransitive(enfa, eps, s, x);
    }
  }

  /** The closure of a member of a closed set stays inside it. */
  lemma ClosedHoldsClosure(enfa: Relation, eps: Symbol, X: set<State>, x: State)
    requires EpsClosed(enfa, eps, X) && x in X
    ensures EpsClosure(enfa, eps, x) <= X
  {
  }

  /** Reading from `S` and from its closure gives the same states. */
  lemma EReachClose(enfa: Relation, eps: Symbol, S: set<State>, w: seq<Symbol>)
    ensures EReach(enfa, eps, CloseSet(enfa, eps, S), w) == EReach(enfa, eps, S, w)
  {
    CloseSetIdempotent(enfa, eps, S);
  }

  /** Everything the epsilon-NFA reaches after a non-empty word is the destination of some edge, closed. */
  lemma {:induction false} EReachShape(enfa: Relation, eps: Symbol, S: set<State>, w: seq<Symbol>)
    requires w != []
    ensures EReach(enfa, eps, S, w) <= Targets(enfa)
    ensures EpsClosed(enfa, eps, EReach(enfa, eps, S, w))
    decreases |w|
  {
    var Y := Step(enfa, w[0], CloseSet(enfa, eps, S));
    if |w| == 1 {
      CloseSetIdempotent(enfa, eps, Y);
      forall y | y in CloseSet(enfa, eps, Y) ensures y in Targets(enfa) {
        var t :| t in Y && y in EpsClosure(enfa, eps, t);
        var u :| u in CloseSet(enfa, eps, S) && t in Succ(enfa, u, w[0]);
        ReachableTargets(enfa, eps, t, y);
      }
    } else {
      EReachShape(enfa, eps, Y, w[1..]);
    }
  }

  // ---------------------------------------------------------------------------
  // remove_epsilon keeps the language

  /** What `RemoveEpsilon` guarantees about `nfa_no_e` and `nfa_finals`. */
  ghost predicate EpsilonFree(states: seq<State>, alphabet: seq<Symbol>, enfa: Relation, eps: Symbol, finals: seq<State>,
                              noE: Relation, nfaFinals: set<State>) {
    (forall s, a :: (s, a) in noE <==> s in states && a in alphabet && NoEpsMove(enfa, eps, s, a) != {}) &&
    (forall k | k in noE :: noE[k] == NoEpsMove(enfa, eps, k.0, k.1)) &&
    (forall s :: s in nfaFinals <==> s in states && EpsClosure(enfa, eps, s) * Elems(finals) != {})
  }

  /** On the states `D` and the symbols `alphabet`, the moves of `noE` are the epsilon-free moves. */
  ghost predicate MovesAgree(enfa: Relation, eps: Symbol, noE: Relation, D: set<State>, alphabet: seq<Symbol>) {
    forall x, a | x in D && a in alphabet :: Succ(noE, x, a) == NoEpsMove(enfa, eps, x, a)
  }

  /** What `RemoveEpsilon` guarantees gives agreeing moves on every listed state. */
  lemma EpsilonFreeAgrees(states: seq<State>, alphabet: seq<Symbol>, enfa: Relation, eps: Symbol, finals: seq<State>,
                          noE: Relation, nfaFinals: set<State>)
    requires EpsilonFree(states, alphabet, enfa, eps, finals, noE, nfaFinals)
    ensures MovesAgree(enfa, eps, noE, Elems(states), alphabet)
  {
  }

  /** One direction of `StepNoE`, for one state. */
  lemma StepNoEInto(enfa: Relation, eps: Symbol, noE: Relation, D: set<State>, alphabet: seq<Symbol>,
                    X: set<State>, a: Symbol, x: State, y: State)
    requires MovesAgree(enfa, eps, noE, D, alphabet)
    requires X <= D && EpsClosed(enfa, eps, X) && a in alphabet
    requires x in X && y in Succ(noE, x, a)
    ensures y in CloseSet(enfa, eps, Step(enfa, a, X))
  {
    assert y in NoEpsMove(enfa, eps, x, a);
    var t :| t in Step(enfa, a, EpsClosure(enfa, eps, x)) && y in EpsClosure(enfa, eps, t);
    var u :| u in EpsClosure(enfa, eps, x) && t in Succ(enfa, u, a);
    ClosedHoldsClosure(enfa, eps, X, x);
    assert t in Step(enfa, a, X);
  }

  /** The other direction of `StepNoE`, for one edge. */
  lemma StepNoEFrom(enfa: Relation, eps: Symbol, noE: Relation, D: set<State>, alphabet: seq<Symbol>,
                    X: set<State>, a: Symbol, u: State, t: State, y: State)
    requires MovesAgree(enfa, eps, noE, D, alphabet)
    requires X <= D && a in alphabet
    requires u in X && t in Succ(enfa, u, a) && y in EpsClosure(enfa, eps, t)
    ensures y in Step(noE, a, X)
  {
    ClosureHasState(enfa, eps, u);
    assert t in Step(enfa, a, EpsClosure(enfa, eps, u));
    assert y in NoEpsMove(enfa, eps, u, a);
    assert y in Succ(noE, u, a);
  }

  /** From a closed set of states, one epsilon-free step is one step of the epsilon-NFA, closed. */
  lemma StepNoE(enfa: Relation, eps: Symbol, noE: Relation, D: set<State>, alphabet: seq<Symbol>,
                X: set<State>, a: Symbol)
    requires MovesAgree(enfa, eps, noE, D, alphabet)
    requires X <= D && EpsClosed(enfa, eps, X) && a in alphabet
    ensures Step(noE, a, X) == CloseSet(enfa, eps, Step(enfa, a, X))
  {
    forall y | y in Step(noE, a, X) ensures y in CloseSet(enfa, eps, Step(enfa, a, X)) {
      var x :| x in X && y in Succ(noE, x, a);
      StepNoEInto(enfa, eps, noE, D, alphabet, X, a, x, y);
    }
    forall y | y in CloseSet(enfa, eps, Step(enfa, a, X)) ensures y in Step(noE, a, X) {
      var t :| t in Step(enfa, a, X) && y in EpsClosure(enfa, eps, t);
      var u :| u in X && t in Succ(enfa, u, a);
      StepNoEFrom(enfa, eps, noE, D, alphabet, X, a, u, t, y);
    }
  }

  /** A word whose symbols are all in `alphabet` stays so after its first symbol. */
  lemma OverTail(w: seq<Symbol>, alphabet: seq<Symbol>)
    requires w != [] && Over(w, alphabet)
    ensures w[0] in alphabet && Over(w[1..], alphabet)
  {
    forall k | 0 <= k < |w[1..]| ensures w[1..][k] in alphabet {
      assert w[1..][k] == w[k + 1];
    }
  }

  /** The closure of a step of the epsilon-NFA only holds destinations of edges. */
  lemma CloseStepInTargets(enfa: Relation, eps: Symbol, a: Symbol, X: set<State>)
    ensures CloseSet(enfa, eps, Step(enfa, a, X)) <= Targets(enfa)
  {
    forall y | y in CloseSet(enfa, eps, Step(enfa, a, X)) ensures y in Targets(enfa) {
      var t :| t in Step(enfa, a, X) && y in EpsClosure(enfa, eps, t);
      var u :| u in X && t in Succ(enfa, u, a);
      ReachableTargets(enfa, eps, t, y);
    }
  }

  /** From a closed set of states inside `D` the two automata reach the same states on every word. */
  lemma {:induction false} NReachClosed(enfa: Relation, eps: Symbol, noE: Relation, D: set<State>, alphabet: seq<Symbol>,
                                        X: set<State>, w: seq<Symbol>)
    requires MovesAgree(enfa, eps, noE, D, alphabet)
    requires Targets(enfa) <= D
    requires X <= D && EpsClosed(enfa, eps, X) && Over(w, alphabet)
    ensures NReach(noE, X, w) == EReach(enfa, eps, X, w)
    decreases |w|
  {
    if w != [] {
      OverTail(w, alphabet);
      var a := w[0];
      var Y := CloseSet(enfa, eps, Step(enfa, a, X));
      StepNoE(enfa, eps, noE, D, alphabet, X, a);
      CloseSetIdempotent(enfa, eps, Step(enfa, a, X));
      CloseStepInTargets(enfa, eps, a, X);
      NReachClosed(enfa, eps, noE, D, alphabet, Y, w[1..]);
      EReachClose(enfa, eps, Step(enfa, a, X), w[1..]);
    }
  }

  /** The accepting states of the epsilon-free NFA, on the states `D`. */
  ghost predicate FinalsAgree(enfa: Relation, eps: Symbol, nfaFinals: set<State>, D: set<State>, finals: set<State>) {
    forall x | x in D :: x in nfaFinals <==> EpsClosure(enfa, eps, x) * finals != {}
  }

  lemma MeetsFinalsForward(enfa: Relation, eps: Symbol, nfaFinals: set<State>, D: set<State>, finals: set<State>,
                           X: set<State>, x: State)
    requires FinalsAgree(enfa, eps, nfaFinals, D, finals)
    requires X <= D && EpsClosed(enfa, eps, X) && x in X && x in nfaFinals
    ensures X * finals != {}
  {
    var f :| f in EpsClosure(enfa, eps, x) && f in finals;
    ClosedHoldsClosure(enfa, eps, X, x);
    assert f in X * finals;
  }

  lemma MeetsFinalsBackward(enfa: Relation, eps: Symbol, nfaFinals: set<State>, D: set<State>, finals: set<State>,
                            X: set<State>, f: State)
    requires FinalsAgree(enfa, eps, nfaFinals, D, finals)
    requires X <= D && f in X && f in finals
    ensures X * nfaFinals != {}
  {
    ClosureHasState(enfa, eps, f);
    assert f in EpsClosure(enfa, eps, f) * finals;
    assert f in X * nfaFinals;
  }

  /** A closed set inside `D` meets `nfa_finals` exactly when it meets the accepting states. */
  lemma ClosedMeetsFinals(enfa: Relation, eps: Symbol, nfaFinals: set<State>, D: set<State>, finals: set<State>,
                          X: set<State>)
    requires FinalsAgree(enfa, eps, nfaFinals, D, finals)
    requires X <= D && EpsClosed(enfa, eps, X)
    ensures X * nfaFinals != {} <==> X * finals != {}
  {
    if X * nfaFinals != {} {
      var x :| x in X * nfaFinals;
      MeetsFinalsForward(enfa, eps, nfaFinals, D, finals, X, x);
    }
    if X * finals != {} {
      var f :| f in X * finals;
      MeetsFinalsBackward(enfa, eps, nfaFinals, D, finals, X, f);
    }
  }

  /** The first epsilon-free step from `s` is the first step of the epsilon-NFA, closed. */
  lemma FirstStep(enfa: Relation, eps: Symbol, noE: Relation, D: set<State>, alphabet: seq<Symbol>, s: State, a: Symbol)
    requires MovesAgree(enfa, eps, noE, D, alphabet)
    requires s in D && a in alphabet
    ensures Step(noE, a, {s}) == CloseSet(enfa, eps, Step(enfa, a, CloseSet(enfa, eps, {s})))
  {
    assert CloseSet(enfa, eps, {s}) == EpsClosure(enfa, eps, s);
    assert Step(noE, a, {s}) == Succ(noE, s, a);
  }

  /** From a state of `D`, both automata reach the same states on every word over the alphabet. */
  lemma NReachFromState(enfa: Relation, eps: Symbol, noE: Relation, D: set<State>, alphabet: seq<Symbol>,
                        s: State, w: seq<Symbol>)
    requires MovesAgree(enfa, eps, noE, D, alphabet)
    requires Targets(enfa) <= D
    requires s in D && w != [] && Over(w, alphabet)
    ensures NReach(noE, {s}, w) == EReach(enfa, eps, {s}, w)
  {
    OverTail(w, alphabet);
    var a := w[0];
    var Z := Step(enfa, a, CloseSet(enfa, eps, {s}));
    FirstStep(enfa, eps, noE, D, alphabet, s, a);
    CloseSetIdempotent(enfa, eps, Z);
    CloseStepInTargets(enfa, eps, a, CloseSet(enfa, eps, {s}));
    NReachClosed(enfa, eps, noE, D, alphabet, CloseSet(enfa, eps, Z), w[1..]);
    EReachClose(enfa, eps, Z, w[1..]);
  }

  /** The empty word: `s` is in `nfa_finals` exactly when its closure meets the accepting states. */
  lemma EmptyWordRemoval(enfa: Relation, eps: Symbol, nfaFinals: set<State>, D: set<State>, finals: set<State>,
                         noE: Relation, s: State)
    requires FinalsAgree(enfa, eps, nfaFinals, D, finals) && s in D
    ensures NAccepts(noE, nfaFinals, s, []) <==> EAccepts(enfa, eps, finals, s, [])
  {
    assert NReach(noE, {s}, []) == {s};
    assert EReach(enfa, eps, {s}, []) == CloseSet(enfa, eps, {s}) == EpsClosure(enfa, eps, s);
    assert {s} * nfaFinals != {} <==> s in nfaFinals;
  }

  /**
   * `remove_epsilon` keeps the language (core.py:23-40): from a listed state,
   * the epsilon-free NFA accepts a word over the alphabet exactly when the
   * epsilon-NFA does.
   */
  lemma RemovalKeepsLanguage(states: seq<State>, alphabet: seq<Symbol>, enfa: Relation, eps: Symbol,
                             finals: seq<State>, noE: Relation, nfaFinals: set<State>, s: State, w: seq<Symbol>)
    requires EpsilonFree(states, alphabet, enfa, eps, finals, noE, nfaFinals)
    requires Targets(enfa) <= Elems(states)
    requires s in states && Over(w, alphabet)
    ensures NAccepts(noE, nfaFinals, s, w) <==> EAccepts(enfa, eps, Elems(finals), s, w)
  {
    var D := Elems(states);
    assert FinalsAgree(enfa, eps, nfaFinals, D, Elems(finals));
    if w == [] {
      EmptyWordRemoval(enfa, eps, nfaFinals, D, Elems(finals), noE, s);
    } else {
      EpsilonFreeAgrees(states, alphabet, enfa, eps, finals, noE, nfaFinals);
      NReachFromState(enfa, eps, noE, D, alphabet, s, w);
      EReachShape(enfa, eps, {s}, w);
      ClosedMeetsFinals(enfa, eps, nfaFinals, D, Elems(finals), EReach(enfa, eps, {s}, w));
    }
  }

  // ---------------------------------------------------------------------------
  // nfa_to_dfa keeps the language

  /** The NFA states a state of the subset automaton stands for; none for the dead state. */
  function Members(d: DState): (r: set<State>)
    ensures d.Subset? ==> r == d.members
  {
    if d.Dead? then {} else d.members
  }

  /** What `NfaToDfa` guarantees about the moves of the subset automaton. */
  ghost predicate SubsetMoves(noE: Relation, alphabet: seq<Symbol>, eps: Symbol, dfaStates: seq<DState>, dfaTrans: DRelation) {
    (forall S, a :: (S, a) in dfaTrans <==> S in dfaStates && a in alphabet && a != eps) &&
    (forall k | k in dfaTrans :: dfaTrans[k] == DMove(noE, k.0, k.1) && dfaTrans[k] in dfaStates)
  }

  /** One move of the subset automaton stands for one step of the NFA. */
  lemma MembersMove(noE: Relation, d: DState, a: Symbol)
    ensures Members(DMove(noE, d, a)) == Step(noE, a, Members(d))
  {
    if d.Dead? {
      assert Step(noE, a, {}) == {};
    }
  }

  /**
   * From any of its states, the subset automaton runs on every word over the
   * alphabet without epsilon and ends in the state that stands for the NFA
   * states reachable on that word.
   */
  lemma {:induction false} SubsetRun(noE: Relation, alphabet: seq<Symbol>, eps: Symbol, dfaStates: seq<DState>,
                                     dfaTrans: DRelation, d: DState, w: seq<Symbol>)
    requires SubsetMoves(noE, alphabet, eps, dfaStates, dfaTrans)
    requires d in dfaStates && Over(w, Without(alphabet, eps))
    ensures DRun(dfaTrans, d, w).Some? && DRun(dfaTrans, d, w).value in dfaStates
    ensures Members(DRun(dfaTrans, d, w).value) == NReach(noE, Members(d), w)
    decreases |w|
  {
    if w != [] {
      OverTail(w, Without(alphabet, eps));
      var a := w[0];
      assert (d, a) in dfaTrans;
      MembersMove(noE, d, a);
      SubsetRun(noE, alphabet, eps, dfaStates, dfaTrans, dfaTrans[(d, a)], w[1..]);
    }
  }

  /**
   * `nfa_to_dfa` keeps the language (core.py:43-76): the subset automaton
   * accepts a word over the alphabet without epsilon exactly when the NFA does.
   */
  lemma SubsetKeepsLanguage(noE: Relation, alphabet: seq<Symbol>, eps: Symbol, start: State, finals: set<State>,
                            dfaStates: seq<DState>, dfaTrans: DRelation, dfaFinals: set<DState>, w: seq<Symbol>)
    requires SubsetMoves(noE, alphabet, eps, dfaStates, dfaTrans)
    requires Subset({start}) in dfaStates
    requires forall S :: S in dfaFinals <==> S in dfaStates && S.Subset? && S.members * finals != {}
    requires Over(w, Without(alphabet, eps))
    ensures DAccepts(dfaTrans, dfaFinals, Subset({start}), w) <==> NAccepts(noE, finals, start, w)
  {
    SubsetRun(noE, alphabet, eps, dfaStates, dfaTrans, Subset({start}), w);
  }

  // ---------------------------------------------------------------------------
  // minimize_dfa keeps the language

  /** What `MinimizeDfa` guarantees about the moves between blocks. */
  ghost predicate QuotientMoves(blocks: Partition, minAlphabet: seq<Symbol>, trans: DRelation, minTrans: map<(nat, Symbol), nat>) {
    (forall i, a, s | 0 <= i < |blocks| && s in blocks[i] && a in minAlphabet ::
      (i, a) in minTrans <==> (s, a) in trans) &&
    (forall k | k in minTrans :: k.0 < |blocks| && k.1 in minAlphabet && minTrans[k] < |blocks|) &&
    (forall i, a, s | (i, a) in minTrans && s in blocks[i] :: trans[(s, a)] in blocks[minTrans[(i, a)]])
  }

  /**
   * The minimised automaton follows the DFA block by block: from the block of
   * `d` it runs on a word exactly when the DFA does, and ends in the block of
   * the state the DFA ends in.
   */
  lemma {:induction false} QuotientRun(blocks: Partition, minAlphabet: seq<Symbol>, trans: DRelation,
                                       minTrans: map<(nat, Symbol), nat>, i: nat, d: DState, w: seq<Symbol>)
    requires QuotientMoves(blocks, minAlphabet, trans, minTrans)
    requires i < |blocks| && d in blocks[i] && Over(w, minAlphabet)
    ensures MRun(minTrans, i, w).Some? <==> DRun(trans, d, w).Some?
    ensures MRun(minTrans, i, w).Some? ==>
      MRun(minTrans, i, w).value < |blocks| && DRun(trans, d, w).value in blocks[MRun(minTrans, i, w).value]
    decreases |w|
  {
    if w != [] {
      OverTail(w, minAlphabet);
      var a := w[0];
      if (i, a) in minTrans {
        QuotientRun(blocks, minAlphabet, trans, minTrans, minTrans[(i, a)], trans[(d, a)], w[1..]);
      }
    }
  }

  /**
   * `minimize_dfa` keeps the language (core.py:79-134): from the block of any
   * DFA state, the minimised automaton accepts exactly the words the DFA
   * accepts from that state.
   */
  lemma QuotientKeepsLanguage(blocks: Partition, minAlphabet: seq<Symbol>, trans: DRelation, finals: set<DState>,
                              minTrans: map<(nat, Symbol), nat>, minFinals: set<nat>, i: nat, d: DState, w: seq<Symbol>)
    requires QuotientMoves(blocks, minAlphabet, trans, minTrans) && Separates(blocks, finals)
    requires forall j :: j in minFinals <==> 0 <= j < |blocks| && blocks[j] <= finals
    requires i < |blocks| && d in blocks[i] && Over(w, minAlphabet)
    ensures MAccepts(minTrans, minFinals, i, w) <==> DAccepts(trans, finals, d, w)
  {
    QuotientRun(blocks, minAlphabet, trans, minTrans, i, d, w);
    var m := MRun(minTrans, i, w);
    if m.Some? {
      var e := DRun(trans, d, w).value;
      assert e in blocks[m.value] * finals ==> blocks[m.value] * finals != {};
    }
  }

  /**
   * With no block splitting equivalent states, two DFA states share a block of
   * the minimised automaton exactly when they accept the same words: the
   * quotient merges every pair of equivalent states and no other pair.
   */
  lemma MergedIffEquivalent(blocks: Partition, universe: set<DState>, minAlphabet: seq<Symbol>, trans: DRelation,
                            finals: set<DState>, minTrans: map<(nat, Symbol), nat>, minFinals: set<nat>,
                            s: DState, t: DState)
    requires IsPartition(blocks, universe) && Separates(blocks, finals)
    requires QuotientMoves(blocks, minAlphabet, trans, minTrans)
    requires forall j :: j in minFinals <==> 0 <= j < |blocks| && blocks[j] <= finals
    requires KeepsEquivalent(blocks, universe, trans, finals, minAlphabet)
    requires s in universe && t in universe
    ensures BlockOf(blocks, s) == BlockOf(blocks, t) <==> Equivalent(trans, finals, minAlphabet, s, t)
  {
    var i := BlockOf(blocks, s).value;
    if Equivalent(trans, finals, minAlphabet, s, t) {
      assert Together(blocks, s, t);
      BlockOfUnique(blocks, t, i);
    }
    if BlockOf(blocks, s) == BlockOf(blocks, t) {
      forall w | Over(w, minAlphabet)
        ensures DAccepts(trans, finals, s, w) <==> DAccepts(trans, finals, t, w)
      {
        QuotientKeepsLanguage(blocks, minAlphabet, trans, finals, minTrans, minFinals, i, s, w);
        QuotientKeepsLanguage(blocks, minAlphabet, trans, finals, minTrans, minFinals, i, t, w);
      }
    }
  }
}
