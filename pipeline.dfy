/**
 * What the dashboard does with an NFA (NFA_DFA.py:202-221): validate it, stop
 * on the first problem, and otherwise run `remove_epsilon`, `nfa_to_dfa` and
 * `minimize_dfa` in turn. The subset automaton and the minimised automaton
 * accept exactly the words the input accepts.
 */
module Pipeline {
  import opened Automata
  import opened Strings
  import opened EpsilonClosure
  import opened EpsilonRemoval
  import opened SubsetConstruction
  import opened Minimization
  import opened Languages
  import opened Input

  /** The results the dashboard shows: the DFA, and the minimised DFA with its block labels. */
  datatype Conversion = Conversion(
    dfaStates: seq<DState>, dfaTrans: DRelation, dfaStart: DState, dfaFinals: set<DState>,
    blocks: Partition, labels: seq<string>, minAlphabet: seq<Symbol>,
    minTrans: map<(nat, Symbol), nat>, minStart: nat, minFinals: set<nat>)

  datatype Outcome = Stopped(problem: Problem) | Converted(result: Conversion)

  lemma OverWithout(w: seq<Symbol>, alphabet: seq<Symbol>, eps: Symbol)
    requires Over(w, Without(alphabet, eps))
    ensures Over(w, alphabet)
  {
  }

  /** The epsilon-free NFA and the subset automaton together keep the language, word by word. */
  lemma DfaKeepsLanguage(nfa: Nfa, eps: Symbol, noE: Relation, nfaFinals: set<State>,
                         dfaStates: seq<DState>, dfaTrans: DRelation, dfaFinals: set<DState>, w: seq<Symbol>)
    requires Valid(nfa)
    requires EpsilonFree(nfa.states, nfa.alphabet, nfa.transitions, eps, nfa.finals, noE, nfaFinals)
    requires SubsetMoves(noE, nfa.alphabet, eps, dfaStates, dfaTrans) && Subset({nfa.start}) in dfaStates
    requires forall S :: S in dfaFinals <==> S in dfaStates && S.Subset? && S.members * nfaFinals != {}
    requires Over(w, Without(nfa.alphabet, eps))
    ensures DAccepts(dfaTrans, dfaFinals, Subset({nfa.start}), w) <==>
      EAccepts(nfa.transitions, eps, Elems(nfa.finals), nfa.start, w)
  {
    OverWithout(w, nfa.alphabet, eps);
    RemovalKeepsLanguage(nfa.states, nfa.alphabet, nfa.transitions, eps, nfa.finals, noE, nfaFinals, nfa.start, w);
    SubsetKeepsLanguage(noE, nfa.alphabet, eps, nfa.start, nfaFinals, dfaStates, dfaTrans, dfaFinals, w);
  }

  /**
   * NFA_DFA.py:214-221 on a valid NFA, with `eps` the symbol the core reads as
   * the empty move: both automata accept a word over the alphabet without
   * `eps` exactly when the input does.
   */
  method Convert(nfa: Nfa, eps: Symbol) returns (c: Conversion)
    requires Valid(nfa)
    ensures c.dfaStart == Subset({nfa.start}) && c.minAlphabet == Without(nfa.alphabet, eps)
    ensures forall w | Over(w, c.minAlphabet) ::
      DAccepts(c.dfaTrans, c.dfaFinals, c.dfaStart, w) <==> EAccepts(nfa.transitions, eps, Elems(nfa.finals), nfa.start, w)
    ensures forall w | Over(w, c.minAlphabet) ::
      MAccepts(c.minTrans, c.minFinals, c.minStart, w) <==> EAccepts(nfa.transitions, eps, Elems(nfa.finals), nfa.start, w)
    ensures forall s, t | s in c.dfaStates && t in c.dfaStates ::
      BlockOf(c.blocks, s) == BlockOf(c.blocks, t) <==> Equivalent(c.dfaTrans, c.dfaFinals, c.minAlphabet, s, t)
  {
    var closures, noE, nfaFinals := RemoveEpsilon(nfa.states, nfa.alphabet, nfa.transitions, eps, nfa.finals);
    var dfaStates, dfaTrans, dfaStart, dfaFinals := NfaToDfa(nfa.alphabet, eps, noE, nfa.start, nfaFinals);
    var blocks, labels, minAlphabet, minTrans, minStart, minFinals :=
      MinimizeDfa(dfaStates, nfa.alphabet, eps, dfaTrans, dfaStart, dfaFinals);
    c := Conversion(dfaStates, dfaTrans, dfaStart, dfaFinals, blocks, labels, minAlphabet, minTrans, minStart, minFinals);
    assert EpsilonFree(nfa.states, nfa.alphabet, nfa.transitions, eps, nfa.finals, noE, nfaFinals);
    assert SubsetMoves(noE, nfa.alphabet, eps, dfaStates, dfaTrans);
    assert QuotientMoves(blocks, minAlphabet, dfaTrans, minTrans);
    forall w | Over(w, minAlphabet)
      ensures DAccepts(dfaTrans, dfaFinals, dfaStart, w) <==> EAccepts(nfa.transitions, eps, Elems(nfa.finals), nfa.start, w)
      ensures MAccepts(minTrans, minFinals, minStart, w) <==> EAccepts(nfa.transitions, eps, Elems(nfa.finals), nfa.start, w)
    {
      DfaKeepsLanguage(nfa, eps, noE, nfaFinals, dfaStates, dfaTrans, dfaFinals, w);
      QuotientKeepsLanguage(blocks, minAlphabet, dfaTrans, dfaFinals, minTrans, minFinals, minStart, dfaStart, w);
    }
    ghost var universe := Elems(dfaStates) + dfaFinals;
    assert universe == Elems(dfaStates);
    assert Total(dfaTrans, minAlphabet, universe);
    forall s, t | s in dfaStates && t in dfaStates
      ensures BlockOf(blocks, s) == BlockOf(blocks, t) <==> Equivalent(dfaTrans, dfaFinals, minAlphabet, s, t)
    {
      MergedIffEquivalent(blocks, universe, minAlphabet, dfaTrans, dfaFinals, minTrans, minFinals, s, t);
    }
  }

  /**
   * NFA_DFA.py:202-221: an NFA that fails a check stops the run with that
   * check's message; a valid one is converted, and core.py reads `"ε"` as the
   * empty move.
   */
  method Run(nfa: Nfa) returns (out: Outcome)
    ensures out.Stopped? <==> !Valid(nfa)
    ensures out.Stopped? && out.problem == StartNotAState <==> nfa.start !in nfa.states
    ensures out.Converted? ==> forall w | Over(w, Without(nfa.alphabet, Epsilon)) ::
      MAccepts(out.result.minTrans, out.result.minFinals, out.result.minStart, w) <==>
      EAccepts(nfa.transitions, Epsilon, Elems(nfa.finals), nfa.start, w)
    ensures out.Converted? ==> forall s, t | s in out.result.dfaStates && t in out.result.dfaStates ::
      BlockOf(out.result.blocks, s) == BlockOf(out.result.blocks, t) <==>
      Equivalent(out.result.dfaTrans, out.result.dfaFinals, out.result.minAlphabet, s, t)
  {
    var error := Validate(nfa);
    if error.Some? {
      return Stopped(error.value);
    }
    var c := Convert(nfa, Epsilon);
    out := Converted(c);
  }

  // ---------------------------------------------------------------------------
  // The empty-move symbol of the manual form

  /** A box holding one plain state name stands for that state alone. */
  lemma BoxOfOneState(boxes: map<(State, Symbol), string>, s: State, a: Symbol, name: State)
    requires (s, a) in boxes && boxes[(s, a)] == name
    requires name != [] && Stripped(name) && ',' !in name
    ensures BoxEntry(boxes, s, a) == Some({name})
  {
    assert Box(boxes, s, a) == name;
    StripOfStripped(name);
    SplitWithout(name, ',');
    var pieces := Split(name, ',');
    assert pieces == [name];
    assert Strip(pieces[0]) == name;
    assert BoxTargets(name) == set k | 0 <= k < |pieces| :: Strip(pieces[k]);
    assert name in BoxTargets(name);
    assert BoxTargets(name) == {name};
  }

  /** `q1` is a plain state name. */
  lemma PlainQ1()
    ensures "q1" != [] && Stripped("q1") && ',' !in "q1"
  {
    assert "q1"[0] == 'q' && "q1"[1] == '1';
    assert !IsSpace('q') && !IsSpace('1');
  }

  /** The empty word is accepted from `s` when an accepting state is reachable by empty moves. */
  lemma AcceptsEmpty(enfa: Relation, eps: Symbol, finals: set<State>, s: State, t: State)
    requires t in Succ(enfa, s, eps) && t in finals
    ensures EAccepts(enfa, eps, finals, s, [])
  {
    ClosureHasState(enfa, eps, s);
    ClosureClosed(enfa, eps, s, s, t);
    assert t in CloseSet(enfa, eps, {s});
    assert t in EReach(enfa, eps, {s}, []) * finals;
  }

  /** Without empty moves the empty word is accepted from `s` only when `s` accepts. */
  lemma RejectsEmpty(enfa: Relation, eps: Symbol, finals: set<State>, s: State)
    requires forall u :: (u, eps) !in enfa
    requires s !in finals
    ensures !EAccepts(enfa, eps, finals, s, [])
  {
    ClosureLeast(enfa, eps, s, {s});
    ClosureHasState(enfa, eps, s);
    assert CloseSet(enfa, eps, {s}) == EpsClosure(enfa, eps, s);
    assert EReach(enfa, eps, {s}, []) == {s};
  }

  /**
   * As written, the manual form files the empty move of `q0` to `q1` under
   * `UiEpsilon` (NFA_DFA.py:196), which core.py does not read as empty
   * (core.py:16): with `q1` accepting, the empty word is in the language the
   * user entered but not in the one the conversion computes.
   */
  lemma MisencodedEpsilonIgnored(trans: Relation)
    requires ManualMoves(["q0", "q1"], [], map[("q0", UiEpsilon) := "q1"], UiEpsilon, trans)
    ensures EAccepts(trans, UiEpsilon, {"q1"}, "q0", [])
    ensures !EAccepts(trans, Epsilon, {"q1"}, "q0", [])
  {
    PlainQ1();
    BoxOfOneState(map[("q0", UiEpsilon) := "q1"], "q0", UiEpsilon, "q1");
    assert Lookup(trans, "q0", UiEpsilon) == Some({"q1"});
    AcceptsEmpty(trans, UiEpsilon, {"q1"}, "q0", "q1");
    forall u ensures (u, Epsilon) !in trans {
      assert Lookup(trans, u, Epsilon) == None;
    }
    RejectsEmpty(trans, Epsilon, {"q1"}, "q0");
  }

  /**
   * With the form offering core.py's own `"ε"`, the same box is an empty move
   * and the empty word is accepted.
   */
  lemma EpsilonBoxRead(trans: Relation)
    requires ManualMoves(["q0", "q1"], [], map[("q0", Epsilon) := "q1"], Epsilon, trans)
    ensures EAccepts(trans, Epsilon, {"q1"}, "q0", [])
  {
    PlainQ1();
    BoxOfOneState(map[("q0", Epsilon) := "q1"], "q0", Epsilon, "q1");
    assert Lookup(trans, "q0", Epsilon) == Some({"q1"});
    AcceptsEmpty(trans, Epsilon, {"q1"}, "q0", "q1");
  }
}
