/**
 * `remove_epsilon` (core.py:23-40): the epsilon-free NFA. A state is accepting
 * when its closure meets an accepting state, and its move on `a` is the closure
 * of the `a`-successors of its closure. Only non-empty moves are stored.
 */
module EpsilonRemoval {
  import opened Automata
  import opened EpsilonClosure

  /** The epsilon-free move of `s` on `a`: close, take the `a`-edges, close again. */
  ghost function NoEpsMove(enfa: Relation, eps: Symbol, s: State, a: Symbol): set<State> {
    CloseSet(enfa, eps, Step(enfa, a, EpsClosure(enfa, eps, s)))
  }

  lemma StepAddOne(rel: Relation, a: Symbol, ts: set<State>, t: State)
    ensures Step(rel, a, ts + {t}) == Step(rel, a, ts) + Succ(rel, t, a)
  {
  }

  lemma CloseSetAddOne(enfa: Relation, eps: Symbol, ds: set<State>, d: State)
    ensures CloseSet(enfa, eps, ds + {d}) == CloseSet(enfa, eps, ds) + EpsClosure(enfa, eps, d)
  {
  }

  /** `dests = set(); for t in ts: dests.update(enfa.get((t, a), set()))` (core.py:31-33). */
  method StepFrom(enfa: Relation, a: Symbol, ts: set<State>) returns (dests: set<State>)
    ensures dests == Step(enfa, a, ts)
  {
    dests := {};
    var todo := ts;
    while todo != {}
      invariant todo <= ts
      invariant dests == Step(enfa, a, ts - todo)
      decreases todo
    {
      var t :| t in todo;
      StepAddOne(enfa, a, ts - todo, t);
      assert ts - (todo - {t}) == (ts - todo) + {t};
      todo := todo - {t};
      dests := dests + Succ(enfa, t, a);
    }
  }

  /** `out = set(); for d in ds: out.update(closures[d])` (core.py:35-37). */
  method CloseAll(closures: map<State, set<State>>, ghost enfa: Relation, ghost eps: Symbol, ds: set<State>)
    returns (out: set<State>)
    requires ds <= closures.Keys
    requires forall d | d in closures :: closures[d] == EpsClosure(enfa, eps, d)
    ensures out == CloseSet(enfa, eps, ds)
  {
    out := {};
    var todo := ds;
    while todo != {}
      invariant todo <= ds
      invariant out == CloseSet(enfa, eps, ds - todo)
      decreases todo
    {
      var d :| d in todo;
      CloseSetAddOne(enfa, eps, ds - todo, d);
      assert ds - (todo - {d}) == (ds - todo) + {d};
      todo := todo - {d};
      out := out + closures[d];
    }
  }

  /** `closures = {s: epsilon_closure_of(s, enfa) for s in states}` (core.py:24). */
  method ClosuresOf(states: seq<State>, enfa: Relation, eps: Symbol) returns (closures: map<State, set<State>>)
    ensures closures.Keys == Elems(states)
    ensures forall s | s in closures :: closures[s] == EpsClosure(enfa, eps, s)
  {
    closures := map[];
    var i := 0;
    while i < |states|
      invariant 0 <= i <= |states|
      invariant closures.Keys == Elems(states[..i])
      invariant forall s | s in closures :: closures[s] == EpsClosure(enfa, eps, s)
    {
      var c := EpsilonClosureOf(states[i], enfa, eps);
      closures := closures[states[i] := c];
      assert states[..i + 1] == states[..i] + [states[i]];
      i := i + 1;
    }
    assert states[..i] == states;
  }

  /** `noE` holds exactly the non-empty epsilon-free moves of the states in `done` on `alphabet`. */
  ghost predicate MovesOf(enfa: Relation, eps: Symbol, noE: Relation, done: set<State>, alphabet: set<Symbol>) {
    (forall s, a :: (s, a) in noE <==> s in done && a in alphabet && NoEpsMove(enfa, eps, s, a) != {}) &&
    (forall k | k in noE :: noE[k] == NoEpsMove(enfa, eps, k.0, k.1))
  }

  /**
   * `noE` holds the non-empty epsilon-free moves of the states in `done` on
   * `alphabet`, and those of `s` on the symbols in `syms`.
   */
  ghost predicate MovesSoFar(enfa: Relation, eps: Symbol, noE: Relation, done: set<State>, alphabet: set<Symbol>,
                             s: State, syms: set<Symbol>) {
    (forall s', a :: (s', a) in noE <==>
      ((s' in done && a in alphabet) || (s' == s && a in syms)) && NoEpsMove(enfa, eps, s', a) != {}) &&
    (forall k | k in noE :: noE[k] == NoEpsMove(enfa, eps, k.0, k.1))
  }

  /** Storing the move of `s` on `a` when it is non-empty extends the moves so far by `a`. */
  lemma MoveStep(enfa: Relation, eps: Symbol, noE: Relation, done: set<State>, alphabet: set<Symbol>,
                 s: State, syms: set<Symbol>, a: Symbol, c: set<State>)
    requires MovesSoFar(enfa, eps, noE, done, alphabet, s, syms)
    requires c == NoEpsMove(enfa, eps, s, a)
    ensures MovesSoFar(enfa, eps, if c != {} then noE[(s, a) := c] else noE, done, alphabet, s, syms + {a})
  {
    var noE' := if c != {} then noE[(s, a) := c] else noE;
    forall s', b
      ensures (s', b) in noE' <==>
        ((s' in done && b in alphabet) || (s' == s && b in syms + {a})) && NoEpsMove(enfa, eps, s', b) != {}
    {
      if (s', b) != (s, a) {
        assert (s', b) in noE' <==> (s', b) in noE;
      }
    }
    forall k | k in noE' ensures noE'[k] == NoEpsMove(enfa, eps, k.0, k.1) {
      if k != (s, a) {
        assert k in noE;
      }
    }
  }

  /** Every `a`-successor is a destination of the relation. */
  lemma StepInTargets(rel: Relation, a: Symbol, ts: set<State>)
    ensures Step(rel, a, ts) <= Targets(rel)
  {
    forall d | d in Step(rel, a, ts) ensures d in Targets(rel) {
      var t :| t in ts && d in Succ(rel, t, a);
    }
  }

  lemma MovesSoFarStart(enfa: Relation, eps: Symbol, noE: Relation, done: set<State>, alphabet: set<Symbol>, s: State)
    requires MovesOf(enfa, eps, noE, done, alphabet)
    ensures MovesSoFar(enfa, eps, noE, done, alphabet, s, {})
  {
  }

  lemma MovesSoFarEnd(enfa: Relation, eps: Symbol, noE: Relation, done: set<State>, alphabet: set<Symbol>, s: State)
    requires MovesSoFar(enfa, eps, noE, done, alphabet, s, alphabet)
    ensures MovesOf(enfa, eps, noE, done + {s}, alphabet)
  {
  }

  /** The inner loop `for a in alphabet: ...` of core.py:30-39, for one state `s`. */
  method AddMoves(s: State, alphabet: seq<Symbol>, closures: map<State, set<State>>, enfa: Relation, eps: Symbol,
                  noE0: Relation, ghost done: set<State>)
    returns (noE: Relation)
    requires s in closures && Targets(enfa) <= closures.Keys
    requires forall t | t in closures :: closures[t] == EpsClosure(enfa, eps, t)
    requires MovesOf(enfa, eps, noE0, done, Elems(alphabet))
    ensures MovesOf(enfa, eps, noE, done + {s}, Elems(alphabet))
  {
    noE := noE0;
    MovesSoFarStart(enfa, eps, noE, done, Elems(alphabet), s);
    assert alphabet[..0] == [];
    for j := 0 to |alphabet|
      invariant MovesSoFar(enfa, eps, noE, done, Elems(alphabet), s, Elems(alphabet[..j]))
    {
      var a := alphabet[j];
      var dests := StepFrom(enfa, a, closures[s]);
      StepInTargets(enfa, a, closures[s]);
      var closureDests := CloseAll(closures, enfa, eps, dests);
      MoveStep(enfa, eps, noE, done, Elems(alphabet), s, Elems(alphabet[..j]), a, closureDests);
      if closureDests != {} {
        noE := noE[(s, a) := closureDests];
      }
      ElemsSnoc(alphabet, j);
    }
    assert alphabet[..|alphabet|] == alphabet;
    MovesSoFarEnd(enfa, eps, noE, done, Elems(alphabet), s);
  }

  /**
   * Returns the closure of every state, the epsilon-free relation and its
   * accepting states. `closures[d]` at core.py:37 needs every destination to be
   * a declared state, which the input validation guarantees.
   */
  method RemoveEpsilon(states: seq<State>, alphabet: seq<Symbol>, enfa: Relation, eps: Symbol, finals: seq<State>)
    returns (closures: map<State, set<State>>, noE: Relation, nfaFinals: set<State>)
    requires Targets(enfa) <= Elems(states)
    ensures closures.Keys == Elems(states)
    ensures forall s | s in closures :: closures[s] == EpsClosure(enfa, eps, s)
    ensures forall s, a :: (s, a) in noE <==> s in states && a in alphabet && NoEpsMove(enfa, eps, s, a) != {}
    ensures forall k | k in noE :: noE[k] == NoEpsMove(enfa, eps, k.0, k.1)
    ensures forall s :: s in nfaFinals <==> s in states && EpsClosure(enfa, eps, s) * Elems(finals) != {}
  {
    closures := ClosuresOf(states, enfa, eps);
    noE := map[];
    nfaFinals := {};
    ghost var done: set<State> := {};
    var i := 0;
    while i < |states|
      invariant 0 <= i <= |states|
      invariant done == Elems(states[..i])
      invariant MovesOf(enfa, eps, noE, done, Elems(alphabet))
      invariant forall s :: s in nfaFinals <==> s in done && EpsClosure(enfa, eps, s) * Elems(finals) != {}
    {
      var s := states[i];
      if exists f :: f in finals && f in closures[s] {
        nfaFinals := nfaFinals + {s};
      }
      noE := AddMoves(s, alphabet, closures, enfa, eps, noE, done);
      done := done + {s};
      assert states[..i + 1] == states[..i] + [s];
      i := i + 1;
    }
    assert states[..i] == states;
  }
}
