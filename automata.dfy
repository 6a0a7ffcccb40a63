/**
 * The automata the converter works on. States and symbols are the strings the
 * user typed; a (possibly non-deterministic, possibly partial) transition
 * relation is a dictionary from (state, symbol) to a set of destination
 * states, as in core.py. The empty-move symbol is a parameter `eps` rather
 * than a fixed literal.
 */
module Automata {

  datatype Option<T> = None | Some(value: T)

  type State = string
  type Symbol = string

  /** A transition relation `{(state, symbol): set of states}`. */
  type Relation = map<(State, Symbol), set<State>>

  /** The members of a list, as a set: `set(xs)`. */
  function Elems<T(!new)>(xs: seq<T>): (r: set<T>)
    ensures forall x :: x in r <==> x in xs
  {
    set x | x in xs
  }

  /** `rel.get((s, a), set())`. */
  function Succ(rel: Relation, s: State, a: Symbol): (r: set<State>)
    ensures r <= Targets(rel)
  {
    if (s, a) in rel then rel[(s, a)] else {}
  }

  /** Every destination state mentioned by the relation. */
  function Targets(rel: Relation): set<State> {
    set k, t | k in rel && t in rel[k] :: t
  }

  /** One more element of a list adds it to the elements of the prefix. */
  lemma ElemsSnoc<T(!new)>(xs: seq<T>, j: nat)
    requires j < |xs|
    ensures Elems(xs[..j + 1]) == Elems(xs[..j]) + {xs[j]}
  {
    assert xs[..j + 1] == xs[..j] + [xs[j]];
  }

  /** `dests = set(); for t in T: dests.update(rel.get((t, a), set()))`. */
  function Step(rel: Relation, a: Symbol, ts: set<State>): set<State> {
    set t, d | t in ts && d in Succ(rel, t, a) :: d
  }

  // ---------------------------------------------------------------------------
  // Empty-move reachability: the reference definition of an epsilon-closure.

  /** `p` follows empty moves from `p[0]` to its last state. */
  ghost predicate EpsPath(rel: Relation, eps: Symbol, p: seq<State>) {
    |p| >= 1 && forall i | 0 <= i < |p| - 1 :: p[i + 1] in Succ(rel, p[i], eps)
  }

  /** `t` can be reached from `s` by zero or more empty moves. */
  ghost predicate Reachable(rel: Relation, eps: Symbol, s: State, t: State) {
    exists p :: EpsPath(rel, eps, p) && p[0] == s && p[|p| - 1] == t
  }

  /** The epsilon-closure of `s`: every state reachable from `s` by empty moves. */
  ghost function EpsClosure(rel: Relation, eps: Symbol, s: State): (c: set<State>)
    ensures forall t :: t in c <==> Reachable(rel, eps, s, t)
  {
    forall t | Reachable(rel, eps, s, t) ensures t == s || t in Targets(rel) {
      ReachableTargets(rel, eps, s, t);
    }
    set t | t in {s} + Targets(rel) && Reachable(rel, eps, s, t)
  }

  /** A state other than the origin is only reached through some edge. */
  lemma ReachableTargets(rel: Relation, eps: Symbol, s: State, t: State)
    requires Reachable(rel, eps, s, t)
    ensures t == s || t in Targets(rel)
  {
    var p :| EpsPath(rel, eps, p) && p[0] == s && p[|p| - 1] == t;
    if |p| > 1 {
      assert t in Succ(rel, p[|p| - 2], eps);
    }
  }

  lemma ReachableRefl(rel: Relation, eps: Symbol, s: State)
    ensures Reachable(rel, eps, s, s)
  {
    assert EpsPath(rel, eps, [s]);
  }

  lemma ReachableStep(rel: Relation, eps: Symbol, s: State, t: State, u: State)
    requires Reachable(rel, eps, s, t) && u in Succ(rel, t, eps)
    ensures Reachable(rel, eps, s, u)
  {
    var p :| EpsPath(rel, eps, p) && p[0] == s && p[|p| - 1] == t;
    var q := p + [u];
    assert forall i | 0 <= i < |q| - 1 :: q[i + 1] in Succ(rel, q[i], eps) by {
      forall i | 0 <= i < |q| - 1 ensures q[i + 1] in Succ(rel, q[i], eps) {
        if i < |p| - 1 { assert q[i] == p[i] && q[i + 1] == p[i + 1]; }
      }
    }
    assert EpsPath(rel, eps, q);
  }

  /** Empty-move reachability composes. */
  lemma {:induction false} ReachableTrans(rel: Relation, eps: Symbol, s: State, t: State, u: State)
    requires Reachable(rel, eps, s, t) && Reachable(rel, eps, t, u)
    ensures Reachable(rel, eps, s, u)
  {
    var q :| EpsPath(rel, eps, q) && q[0] == t && q[|q| - 1] == u;
    ReachableAlong(rel, eps, s, q, |q| - 1);
  }

  lemma {:induction false} ReachableAlong(rel: Relation, eps: Symbol, s: State, q: seq<State>, k: nat)
    requires EpsPath(rel, eps, q) && Reachable(rel, eps, s, q[0]) && k < |q|
    ensures Reachable(rel, eps, s, q[k])
  {
    if k > 0 {
      ReachableAlong(rel, eps, s, q, k - 1);
      ReachableStep(rel, eps, s, q[k - 1], q[k]);
    }
  }

  /** A set holding `s` and closed under empty moves holds everything reachable from `s`. */
  lemma {:induction false} ClosedHoldsReachable(rel: Relation, eps: Symbol, c: set<State>, s: State, t: State)
    requires s in c && (forall u | u in c :: Succ(rel, u, eps) <= c)
    requires Reachable(rel, eps, s, t)
    ensures t in c
  {
    var p :| EpsPath(rel, eps, p) && p[0] == s && p[|p| - 1] == t;
    var k := 0;
    while k < |p| - 1
      invariant 0 <= k < |p| && p[k] in c
    {
      assert p[k + 1] in Succ(rel, p[k], eps);
      k := k + 1;
    }
  }

  /** Union of the closures of the states in `ts`: `for d in ts: out.update(closures[d])`. */
  ghost function CloseSet(rel: Relation, eps: Symbol, ts: set<State>): set<State> {
    set t, x | t in ts && x in EpsClosure(rel, eps, t) :: x
  }

  // ---------------------------------------------------------------------------
  // Deterministic automata

  /**
   * A state of the subset-construction DFA: a set of NFA states, or the dead
   * state (core.py:49 writes it as `frozenset(["q_D"])`).
   */
  datatype DState = Subset(members: set<State>) | Dead

  type DRelation = map<(DState, Symbol), DState>

  /** Every symbol of `w` is in `alphabet`. */
  predicate Over(w: seq<Symbol>, alphabet: seq<Symbol>) {
    forall k | 0 <= k < |w| :: w[k] in alphabet
  }

  /** The run of a partial deterministic automaton; `None` once a move is missing. */
  function DRun(trans: DRelation, d: DState, w: seq<Symbol>): Option<DState>
    decreases |w|
  {
    if w == [] then Some(d)
    else if (d, w[0]) in trans then DRun(trans, trans[(d, w[0])], w[1..])
    else None
  }

  predicate DAccepts(trans: DRelation, finals: set<DState>, d: DState, w: seq<Symbol>) {
    var r := DRun(trans, d, w);
    r.Some? && r.value in finals
  }

  /** No state is listed twice. */
  predicate Distinct(xs: seq<DState>) {
    forall i, j | 0 <= i < j < |xs| :: xs[i] != xs[j]
  }

  /** `[a for a in alphabet if a != eps]`: the list without one symbol, order kept. */
  function Without(alphabet: seq<Symbol>, eps: Symbol): (r: seq<Symbol>)
    ensures forall a :: a in r <==> a in alphabet && a != eps
    ensures |r| <= |alphabet|
    ensures eps in alphabet ==> |r| < |alphabet|
  {
    if alphabet == [] then []
    else if alphabet[0] == eps then Without(alphabet[1..], eps)
    else [alphabet[0]] + Without(alphabet[1..], eps)
  }

  /** Filtering a list extended by one symbol keeps that symbol exactly when it is not `eps`. */
  lemma {:induction false} WithoutSnoc(xs: seq<Symbol>, a: Symbol, eps: Symbol)
    ensures Without(xs + [a], eps) == Without(xs, eps) + (if a == eps then [] else [a])
  {
    var tail := if a == eps then [] else [a];
    if xs == [] {
      assert [a][1..] == [];
      assert xs + [a] == [a];
    } else {
      WithoutSnoc(xs[1..], a, eps);
      assert (xs + [a])[0] == xs[0];
      assert (xs + [a])[1..] == xs[1..] + [a];
      var w := Without(xs[1..], eps);
      if xs[0] != eps {
        assert [xs[0]] + (w + tail) == ([xs[0]] + w) + tail;
      }
    }
  }

  /** The empty-move symbol `"ε"` that core.py tests for (core.py:16, 52, 80). */
  const Epsilon: Symbol := "\U{03B5}"
}
