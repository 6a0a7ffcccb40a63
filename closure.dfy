/**
 * `epsilon_closure_of` (core.py:11-20): a depth-first traversal of the empty
 * moves with an explicit stack, proved to compute exactly the set of states
 * reachable by empty moves, together with the algebraic laws of that set.
 */
module EpsilonClosure {
  import opened Automata

  /** Every member of `c` is reachable from `origin` by empty moves. */
  ghost predicate AllReachable(enfa: Relation, eps: Symbol, origin: State, c: set<State>) {
    forall t | t in c :: Reachable(enfa, eps, origin, t)
  }

  /** Every member of `closure` outside `pending` has all its empty-move successors in `closure`. */
  ghost predicate ClosedBut(enfa: Relation, eps: Symbol, closure: set<State>, pending: set<State>) {
    forall u | u in closure && u !in pending :: Succ(enfa, u, eps) <= closure
  }

  /** Adding states that are still pending keeps the other members closed. */
  lemma ClosedButGrow(enfa: Relation, eps: Symbol, c: set<State>, p: set<State>, c': set<State>, p': set<State>)
    requires ClosedBut(enfa, eps, c, p)
    requires c <= c' && c' - c <= p' && p <= p'
    ensures ClosedBut(enfa, eps, c', p')
  {
  }

  /** Growing a set inside a finite universe leaves fewer states outside it. */
  lemma FewerLeft<T>(universe: set<T>, c0: set<T>, c: set<T>)
    requires c0 <= c <= universe && c != c0
    ensures |universe - c| < |universe - c0|
  {
    assert c == c0 + (c - c0);
    assert universe - c0 == (universe - c) + (c - c0);
  }

  /**
   * `stack = [state]; closure = {state}`; pop a state, and push every empty-move
   * successor not yet in `closure`. Each state is added, and pushed, at most once.
   */
  method EpsilonClosureOf(state: State, enfa: Relation, eps: Symbol) returns (closure: set<State>)
    ensures closure == EpsClosure(enfa, eps, state)
  {
    var stack := [state];
    closure := {state};
    ghost var universe := {state} + Targets(enfa);
    ReachableRefl(enfa, eps, state);
    while stack != []
      invariant state in closure && closure <= universe
      invariant Elems(stack) <= closure
      invariant AllReachable(enfa, eps, state, closure)
      invariant ClosedBut(enfa, eps, closure, Elems(stack))
      decreases |universe - closure|, |stack|
    {
      var s := stack[|stack| - 1];
      assert stack == stack[..|stack| - 1] + [s];
      stack := stack[..|stack| - 1];
      ghost var closure0, stack0 := closure, stack;
      var todo := Succ(enfa, s, eps);
      while todo != {}
        invariant todo <= Succ(enfa, s, eps)
        invariant Succ(enfa, s, eps) - todo <= closure
        invariant s in closure && closure <= universe
        invariant closure0 <= closure && (closure == closure0 ==> stack == stack0)
        invariant Elems(stack) <= closure
        invariant AllReachable(enfa, eps, state, closure)
        invariant ClosedBut(enfa, eps, closure, Elems(stack) + {s})
        decreases todo
      {
        var nxt :| nxt in todo;
        todo := todo - {nxt};
        if nxt !in closure {
          ReachableStep(enfa, eps, state, s, nxt);
          ClosedButGrow(enfa, eps, closure, Elems(stack) + {s}, closure + {nxt}, Elems(stack + [nxt]) + {s});
          closure := closure + {nxt};
          stack := stack + [nxt];
        }
      }
      if closure != closure0 {
        FewerLeft(universe, closure0, closure);
      }
    }
    ClosureCharacterized(enfa, eps, state, closure);
  }

  /** A closed set of states all reachable from `state`, holding `state`, is its closure. */
  lemma ClosureCharacterized(enfa: Relation, eps: Symbol, state: State, closure: set<State>)
    requires state in closure && ClosedBut(enfa, eps, closure, {})
    requires AllReachable(enfa, eps, state, closure)
    ensures closure == EpsClosure(enfa, eps, state)
  {
    forall t | Reachable(enfa, eps, state, t) ensures t in closure {
      ClosedHoldsReachable(enfa, eps, closure, state, t);
    }
  }

  /** The closure of a state contains the state itself (reflexivity). */
  lemma ClosureHasState(enfa: Relation, eps: Symbol, s: State)
    ensures s in EpsClosure(enfa, eps, s)
  {
    ReachableRefl(enfa, eps, s);
  }

  /** The closure is closed under empty moves. */
  lemma ClosureClosed(enfa: Relation, eps: Symbol, s: State, u: State, v: State)
    requires u in EpsClosure(enfa, eps, s) && v in Succ(enfa, u, eps)
    ensures v in EpsClosure(enfa, eps, s)
  {
    ReachableStep(enfa, eps, s, u, v);
  }

  /** The closure is the least set holding `s` and closed under empty moves. */
  lemma ClosureLeast(enfa: Relation, eps: Symbol, s: State, c: set<State>)
    requires s in c && forall u | u in c :: Succ(enfa, u, eps) <= c
    ensures EpsClosure(enfa, eps, s) <= c
  {
    forall t | t in EpsClosure(enfa, eps, s) ensures t in c {
      ClosedHoldsReachable(enfa, eps, c, s, t);
    }
  }

  /** For `t` in `closure(s)`, `closure(t)` is contained in `closure(s)`. */
  lemma ClosureTransitive(enfa: Relation, eps: Symbol, s: State, t: State)
    requires t in EpsClosure(enfa, eps, s)
    ensures EpsClosure(enfa, eps, t) <= EpsClosure(enfa, eps, s)
  {
    forall u | u in EpsClosure(enfa, eps, t) ensures u in EpsClosure(enfa, eps, s) {
      ReachableTrans(enfa, eps, s, t, u);
    }
  }

  /** Closing a closure again changes nothing: `closure(closure(s)) == closure(s)`. */
  lemma ClosureIdempotent(enfa: Relation, eps: Symbol, s: State)
    ensures CloseSet(enfa, eps, EpsClosure(enfa, eps, s)) == EpsClosure(enfa, eps, s)
  {
    var c := EpsClosure(enfa, eps, s);
    forall x | x in CloseSet(enfa, eps, c) ensures x in c {
      var t :| t in c && x in EpsClosure(enfa, eps, t);
      ClosureTransitive(enfa, eps, s, t);
    }
    forall x | x in c ensures x in CloseSet(enfa, eps, c) {
      ClosureHasState(enfa, eps, x);
    }
  }
}
