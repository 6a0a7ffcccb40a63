/**
 * `minimize_dfa` (core.py:79-134): Moore-style partition refinement. Blocks
 * start as the accepting / non-accepting split and are split by the signature
 * of block indices their moves lead to, until a round splits nothing. A block
 * of the result is a state of the minimised automaton, identified here by its
 * index in the final partition.
 */
module Minimization {
  import opened Automata
  import opened Strings

  type Partition = seq<set<DState>>
  type Signature = seq<Option<nat>>

  // ---------------------------------------------------------------------------
  // Partitions

  /** Every state of every block. */
  function Flatten(p: Partition): set<DState> {
    set i, x | 0 <= i < |p| && x in p[i] :: x
  }

  predicate Disjoint(p: Partition) {
    forall i, j | 0 <= i < |p| && 0 <= j < |p| && i != j :: p[i] * p[j] == {}
  }

  /** `p` splits `universe` into non-empty, pairwise disjoint blocks. */
  predicate IsPartition(p: Partition, universe: set<DState>) {
    (forall i | 0 <= i < |p| :: p[i] != {}) && Disjoint(p) && Flatten(p) == universe
  }

  /** No block mixes accepting and non-accepting states. */
  predicate Separates(p: Partition, finals: set<DState>) {
    forall i | 0 <= i < |p| :: p[i] <= finals || p[i] * finals == {}
  }

  /** Every block of `q` lies inside some block of `p`. */
  predicate Refines(q: Partition, p: Partition) {
    forall j | 0 <= j < |q| :: WithinBlock(q[j], p)
  }

  /** `b` lies inside some block of `p`. */
  predicate WithinBlock(b: set<DState>, p: Partition) {
    exists i | 0 <= i < |p| :: b <= p[i]
  }

  /** A partition into non-empty disjoint blocks has no more blocks than states. */
  lemma {:induction false} PartitionSize(p: Partition, universe: set<DState>)
    requires IsPartition(p, universe)
    ensures |p| <= |universe|
    decreases |p|
  {
    if p != [] {
      var n := |p| - 1;
      var front := p[..n];
      PrefixPartition(p, n);
      PartitionSize(front, Flatten(front));
      FlattenSnoc(p, n);
      assert p[..n + 1] == p;
      assert Flatten(front) * p[n] == {} by {
        forall x | x in Flatten(front) ensures x !in p[n] {
          QBlockOutsideOne(p, n, x);
        }
      }
      assert |universe| == |Flatten(front)| + |p[n]|;
    }
  }

  /** The first `n` blocks of a partition partition their own union. */
  lemma PrefixPartition(p: Partition, n: nat)
    requires n <= |p| && (forall i | 0 <= i < |p| :: p[i] != {}) && Disjoint(p)
    ensures IsPartition(p[..n], Flatten(p[..n]))
  {
    var front := p[..n];
    forall i | 0 <= i < n ensures front[i] != {} {
      assert front[i] == p[i];
    }
    forall i, j | 0 <= i < n && 0 <= j < n && i != j ensures front[i] * front[j] == {} {
      assert front[i] == p[i] && front[j] == p[j];
    }
  }

  /** A state of one of the first `n` blocks is not in block `n`. */
  lemma QBlockOutsideOne(p: Partition, n: nat, x: DState)
    requires n < |p| && Disjoint(p) && x in Flatten(p[..n])
    ensures x !in p[n]
  {
    var k :| 0 <= k < n && x in p[..n][k];
    assert p[..n][k] == p[k];
    assert p[k] * p[n] == {};
    assert x !in p[k] * p[n];
  }

  // ---------------------------------------------------------------------------
  // Signatures

  function BlockFrom(p: Partition, d: DState, i: nat): (r: Option<nat>)
    requires i <= |p|
    ensures r.Some? ==> i <= r.value < |p| && d in p[r.value] && forall j | i <= j < r.value :: d !in p[j]
    ensures r.None? ==> forall j | i <= j < |p| :: d !in p[j]
    decreases |p| - i
  {
    if i == |p| then None
    else if d in p[i] then Some(i)
    else BlockFrom(p, d, i + 1)
  }

  /** The index of the first block holding `d`, or `None` when no block holds it. */
  function BlockOf(p: Partition, d: DState): (r: Option<nat>)
    ensures r.Some? <==> d in Flatten(p)
    ensures r.Some? ==> r.value < |p| && d in p[r.value]
  {
    var r := BlockFrom(p, d, 0);
    assert r.None? ==> d !in Flatten(p);
    r
  }

  /** In a disjoint partition the block of a state is the only block holding it. */
  lemma BlockOfUnique(p: Partition, d: DState, i: nat)
    requires Disjoint(p) && i < |p| && d in p[i]
    ensures BlockOf(p, d) == Some(i)
  {
    var r := BlockOf(p, d);
    assert d in Flatten(p);
    assert d in p[r.value] * p[i];
  }

  /** `transitions.get((s, a), None)`. */
  function Target(trans: DRelation, s: DState, a: Symbol): Option<DState> {
    if (s, a) in trans then Some(trans[(s, a)]) else None
  }

  /** `get_partition(x, partitions)`, where `x` may be `None`. */
  function Locate(p: Partition, t: Option<DState>): Option<nat> {
    match t
    case None => None
    case Some(d) => BlockOf(p, d)
  }

  /** `tuple(get_partition(transitions.get((s, a), None), partitions) for a in alphabet)`. */
  function Key(p: Partition, trans: DRelation, alphabet: seq<Symbol>, s: DState): (r: Signature)
    ensures |r| == |alphabet|
  {
    seq(|alphabet|, k requires 0 <= k < |alphabet| => Locate(p, Target(trans, s, alphabet[k])))
  }

  /** The states of every block agree on their signature: no block would split. */
  predicate Stable(p: Partition, trans: DRelation, alphabet: seq<Symbol>) {
    forall i, s, t | 0 <= i < |p| && s in p[i] && t in p[i] :: Key(p, trans, alphabet, s) == Key(p, trans, alphabet, t)
  }

  /** The loop of `get_partition` (core.py:89-93). */
  method GetPartition(t: Option<DState>, p: Partition) returns (r: Option<nat>)
    ensures r == Locate(p, t)
  {
    if t.None? {
      return None;
    }
    var idx := 0;
    while idx < |p|
      invariant 0 <= idx <= |p|
      invariant BlockFrom(p, t.value, idx) == BlockFrom(p, t.value, 0)
    {
      if t.value in p[idx] {
        return Some(idx);
      }
      idx := idx + 1;
    }
    return None;
  }

  /** The signature of `s` (core.py:101). */
  method KeyOf(s: DState, p: Partition, trans: DRelation, alphabet: seq<Symbol>) returns (key: Signature)
    ensures key == Key(p, trans, alphabet, s)
  {
    key := [];
    var k := 0;
    while k < |alphabet|
      invariant 0 <= k <= |alphabet|
      invariant key == Key(p, trans, alphabet, s)[..k]
    {
      var a := alphabet[k];
      var dst := if (s, a) in trans then Some(trans[(s, a)]) else None;
      var idx := GetPartition(dst, p);
      key := key + [idx];
      k := k + 1;
    }
  }

  // ---------------------------------------------------------------------------
  // One round of refinement

  /** The states of `group` whose signature is `key`. */
  function WithKey(group: set<DState>, p: Partition, trans: DRelation, alphabet: seq<Symbol>, key: Signature): set<DState> {
    set s | s in group && Key(p, trans, alphabet, s) == key
  }

  /** The blocks `splitter.values()` of core.py:99-102: one block per signature met in `group`. */
  predicate SplitsBy(parts: Partition, group: set<DState>, p: Partition, trans: DRelation, alphabet: seq<Symbol>) {
    IsPartition(parts, group) &&
    (forall j, s, t | 0 <= j < |parts| && s in parts[j] && t in parts[j] ::
       Key(p, trans, alphabet, s) == Key(p, trans, alphabet, t)) &&
    (forall j, k, s, t | 0 <= j < |parts| && 0 <= k < |parts| && j != k && s in parts[j] && t in parts[k] ::
       Key(p, trans, alphabet, s) != Key(p, trans, alphabet, t))
  }

  /** The state of `splitter` once the states of `done` have been filed by signature. */
  ghost predicate Filed(splitter: map<Signature, set<DState>>, order: seq<Signature>, done: set<DState>,
                        p: Partition, trans: DRelation, alphabet: seq<Symbol>) {
    (forall key :: key in splitter <==> key in order) &&
    (forall j, k | 0 <= j < k < |order| :: order[j] != order[k]) &&
    (forall key | key in splitter :: splitter[key] == WithKey(done, p, trans, alphabet, key)) &&
    (forall key | key in splitter :: splitter[key] != {}) &&
    (forall s | s in done :: Key(p, trans, alphabet, s) in splitter)
  }

  /** `splitter.setdefault(key, set()).add(s)` keeps the filing exact. */
  lemma FileOne(splitter: map<Signature, set<DState>>, order: seq<Signature>, done: set<DState>,
                p: Partition, trans: DRelation, alphabet: seq<Symbol>, s: DState)
    requires Filed(splitter, order, done, p, trans, alphabet) && s !in done
    ensures var key := Key(p, trans, alphabet, s);
      var order' := if key in splitter then order else order + [key];
      var base := if key in splitter then splitter[key] else {};
      Filed(splitter[key := base + {s}], order', done + {s}, p, trans, alphabet)
  {
    var key := Key(p, trans, alphabet, s);
    var order' := if key in splitter then order else order + [key];
    var base := if key in splitter then splitter[key] else {};
    var sp := splitter[key := base + {s}];
    forall k | k in sp ensures sp[k] == WithKey(done + {s}, p, trans, alphabet, k) {
      if k == key {
        assert base == WithKey(done, p, trans, alphabet, key);
      } else {
        assert splitter[k] == WithKey(done, p, trans, alphabet, k);
      }
    }
  }

  /** Listing the filed blocks in first-seen order splits `group` by signature. */
  lemma FiledSplits(splitter: map<Signature, set<DState>>, order: seq<Signature>, group: set<DState>,
                    p: Partition, trans: DRelation, alphabet: seq<Symbol>, parts: Partition)
    requires Filed(splitter, order, group, p, trans, alphabet)
    requires |parts| == |order| && forall j | 0 <= j < |order| :: parts[j] == splitter[order[j]]
    ensures SplitsBy(parts, group, p, trans, alphabet)
  {
    assert forall j, x | 0 <= j < |parts| && x in parts[j] :: x in group && Key(p, trans, alphabet, x) == order[j];
    forall x | x in group ensures x in Flatten(parts) {
      var key := Key(p, trans, alphabet, x);
      var j :| 0 <= j < |order| && order[j] == key;
      assert x in parts[j];
    }
    forall x | x in Flatten(parts) ensures x in group {
      var j :| 0 <= j < |parts| && x in parts[j];
    }
    forall j | 0 <= j < |parts| ensures parts[j] != {} {
      assert order[j] in splitter;
    }
    forall j, k | 0 <= j < |parts| && 0 <= k < |parts| && j != k ensures parts[j] * parts[k] == {} {
      forall x | x in parts[j] ensures x !in parts[k] {
        assert Key(p, trans, alphabet, x) == order[j];
      }
    }
    assert IsPartition(parts, group);
    forall j, s, t | 0 <= j < |parts| && s in parts[j] && t in parts[j]
      ensures Key(p, trans, alphabet, s) == Key(p, trans, alphabet, t)
    {
    }
    forall j, k, s, t | 0 <= j < |parts| && 0 <= k < |parts| && j != k && s in parts[j] && t in parts[k]
      ensures Key(p, trans, alphabet, s) != Key(p, trans, alphabet, t)
    {
    }
  }

  /** `splitter = {}; for s in group: splitter.setdefault(key, set()).add(s)` (core.py:99-102). */
  method SplitGroup(group: set<DState>, p: Partition, trans: DRelation, alphabet: seq<Symbol>) returns (parts: Partition)
    ensures SplitsBy(parts, group, p, trans, alphabet)
  {
    var order: seq<Signature> := [];
    var splitter: map<Signature, set<DState>> := map[];
    var todo := group;
    while todo != {}
      invariant todo <= group
      invariant Filed(splitter, order, group - todo, p, trans, alphabet)
      decreases todo
    {
      var s :| s in todo;
      var key := KeyOf(s, p, trans, alphabet);
      FileOne(splitter, order, group - todo, p, trans, alphabet, s);
      if key !in splitter {
        order := order + [key];
        splitter := splitter[key := {}];
      }
      splitter := splitter[key := splitter[key] + {s}];
      assert group - (todo - {s}) == (group - todo) + {s};
      todo := todo - {s};
    }
    parts := seq(|order|, j requires 0 <= j < |order| => splitter[order[j]]);
    FiledSplits(splitter, order, group, p, trans, alphabet, parts);
  }

  /** Each block of `q` lies in a block of `p` and its states share their signature under `p`. */
  predicate RefinesBySignature(q: Partition, p: Partition, trans: DRelation, alphabet: seq<Symbol>) {
    Refines(q, p) &&
    forall j, s, t | 0 <= j < |q| && s in q[j] && t in q[j] :: Key(p, trans, alphabet, s) == Key(p, trans, alphabet, t)
  }

  /** Appending a split of `p[i]` to a partition of `p[..i]` partitions `p[..i + 1]`. */
  lemma ExtendPartition(p: Partition, i: nat, q: Partition, parts: Partition)
    requires i < |p| && Disjoint(p)
    requires IsPartition(q, Flatten(p[..i])) && IsPartition(parts, p[i])
    ensures IsPartition(q + parts, Flatten(p[..i + 1]))
  {
    var r := q + parts;
    assert Flatten(p[..i + 1]) == Flatten(p[..i]) + p[i] by {
      forall x | x in Flatten(p[..i + 1]) ensures x in Flatten(p[..i]) + p[i] {
        var k :| 0 <= k < i + 1 && x in p[..i + 1][k];
        if k < i { assert x in p[..i][k]; }
      }
      forall x | x in Flatten(p[..i]) ensures x in Flatten(p[..i + 1]) {
        var k :| 0 <= k < i && x in p[..i][k];
        assert x in p[..i + 1][k];
      }
      assert p[..i + 1][i] == p[i];
    }
    forall j, k | 0 <= j < |r| && 0 <= k < |r| && j != k ensures r[j] * r[k] == {} {
      if j < |q| && k >= |q| {
        QBlockOutside(p, i, q, j, parts[k - |q|]);
      } else if j >= |q| && k < |q| {
        QBlockOutside(p, i, q, k, parts[j - |q|]);
      } else if j >= |q| && k >= |q| {
        assert parts[j - |q|] * parts[k - |q|] == {};
      }
    }
    forall x | x in Flatten(r) ensures x in Flatten(p[..i]) + p[i] {
      var k :| 0 <= k < |r| && x in r[k];
      if k < |q| { assert x in Flatten(q); } else { assert x in Flatten(parts); }
    }
    forall x | x in Flatten(p[..i]) + p[i] ensures x in Flatten(r) {
      if x in Flatten(q) {
        var k :| 0 <= k < |q| && x in q[k];
        assert x in r[k];
      } else {
        assert x in Flatten(parts);
        var k :| 0 <= k < |parts| && x in parts[k];
        assert x in r[|q| + k];
      }
    }
  }

  /** A block of a partition of `p[..i]` is disjoint from any part of `p[i]`. */
  lemma QBlockOutside(p: Partition, i: nat, q: Partition, j: nat, part: set<DState>)
    requires i < |p| && Disjoint(p) && j < |q| && Flatten(q) == Flatten(p[..i]) && part <= p[i]
    ensures q[j] * part == {}
  {
    forall x | x in q[j] ensures x !in part {
      assert x in Flatten(q);
      assert x in Flatten(p[..i]);
      var k :| 0 <= k < i && x in p[..i][k];
      assert p[..i][k] == p[k];
      assert p[k] * p[i] == {};
      assert x !in p[k] * p[i];
    }
  }

  /** What the pass of `RefineOnce` has built after the first `i` old blocks. */
  ghost predicate PassSoFar(p: Partition, i: nat, q: Partition, changed: bool, trans: DRelation, alphabet: seq<Symbol>)
    requires i <= |p|
  {
    IsPartition(q, Flatten(p[..i])) && RefinesBySignature(q, p, trans, alphabet) && |q| >= i &&
    (changed ==> |q| > i) &&
    (!changed ==> q == p[..i] && forall k, s, t | 0 <= k < i && s in p[k] && t in p[k] ::
       Key(p, trans, alphabet, s) == Key(p, trans, alphabet, t))
  }

  /** Appending the split of block `i` (or the block itself, when it did not split) continues the pass. */
  lemma PassStep(p: Partition, universe: set<DState>, i: nat, q: Partition, changed: bool,
                 parts: Partition, trans: DRelation, alphabet: seq<Symbol>)
    requires IsPartition(p, universe) && i < |p| && PassSoFar(p, i, q, changed, trans, alphabet)
    requires SplitsBy(parts, p[i], p, trans, alphabet)
    ensures |parts| <= 1 ==> parts == [p[i]]
    ensures PassSoFar(p, i + 1, q + parts, changed || |parts| > 1, trans, alphabet)
  {
    ExtendPartition(p, i, q, parts);
    GroupSplit(p, i, parts, trans, alphabet);
    AppendRefines(p, i, q, parts, trans, alphabet);
    if !changed && |parts| <= 1 {
      assert p[..i + 1] == p[..i] + [p[i]];
    }
  }

  /**
   * Among the first `i` old blocks, two states of one old block with the same
   * signature end in the same new block: `splitter` files them together.
   */
  ghost predicate KeepsSignatureClasses(p: Partition, i: nat, q: Partition, trans: DRelation, alphabet: seq<Symbol>)
    requires i <= |p|
  {
    forall j, k, s, t | 0 <= j < |q| && 0 <= k < i && s in q[j] && s in p[k] && t in p[k] &&
      Key(p, trans, alphabet, s) == Key(p, trans, alphabet, t) :: t in q[j]
  }

  /** Appending the split of block `i` keeps signature classes of the first `i + 1` old blocks whole. */
  lemma ClassesStep(p: Partition, universe: set<DState>, i: nat, q: Partition, parts: Partition,
                    trans: DRelation, alphabet: seq<Symbol>)
    requires IsPartition(p, universe) && i < |p|
    requires IsPartition(q, Flatten(p[..i])) && KeepsSignatureClasses(p, i, q, trans, alphabet)
    requires SplitsBy(parts, p[i], p, trans, alphabet)
    ensures KeepsSignatureClasses(p, i + 1, q + parts, trans, alphabet)
  {
    var r := q + parts;
    forall j, k, s, t | 0 <= j < |r| && 0 <= k < i + 1 && s in r[j] && s in p[k] && t in p[k] &&
      Key(p, trans, alphabet, s) == Key(p, trans, alphabet, t)
      ensures t in r[j]
    {
      if j < |q| {
        assert r[j] == q[j];
        assert s in Flatten(q);
        var k' :| 0 <= k' < i && s in p[..i][k'];
        assert s in p[k'] * p[k];
        assert k' == k;
      } else {
        var m := j - |q|;
        assert r[j] == parts[m];
        assert s in Flatten(parts);
        assert s in p[k] * p[i];
        assert k == i;
        assert t in Flatten(parts);
        var n :| 0 <= n < |parts| && t in parts[n];
        assert n == m;
      }
    }
  }

  /** The blocks split off `p[i]` refine `p` by signature, as the blocks before them do. */
  lemma AppendRefines(p: Partition, i: nat, q: Partition, parts: Partition, trans: DRelation, alphabet: seq<Symbol>)
    requires i < |p| && RefinesBySignature(q, p, trans, alphabet)
    requires forall j | 0 <= j < |parts| :: parts[j] <= p[i]
    requires forall j, s, t | 0 <= j < |parts| && s in parts[j] && t in parts[j] ::
       Key(p, trans, alphabet, s) == Key(p, trans, alphabet, t)
    ensures RefinesBySignature(q + parts, p, trans, alphabet)
  {
    var r := q + parts;
    forall j | 0 <= j < |r| ensures WithinBlock(r[j], p) {
      if j >= |q| {
        assert r[j] == parts[j - |q|] <= p[i];
      } else {
        assert r[j] == q[j];
      }
    }
    forall j, s, t | 0 <= j < |r| && s in r[j] && t in r[j]
      ensures Key(p, trans, alphabet, s) == Key(p, trans, alphabet, t)
    {
      if j >= |q| { assert r[j] == parts[j - |q|]; } else { assert r[j] == q[j]; }
    }
  }

  /**
   * One pass of `for group in partitions` (core.py:96-108). Every new block lies
   * in an old one and shares its signature under the old partition; nothing
   * changes exactly when every old block was already stable.
   */
  method RefineOnce(p: Partition, ghost universe: set<DState>, trans: DRelation, alphabet: seq<Symbol>)
    returns (q: Partition, changed: bool)
    requires IsPartition(p, universe)
    ensures IsPartition(q, universe) && RefinesBySignature(q, p, trans, alphabet)
    ensures changed ==> |q| > |p|
    ensures !changed ==> q == p && Stable(p, trans, alphabet)
    ensures KeepsSignatureClasses(p, |p|, q, trans, alphabet)
  {
    q := [];
    changed := false;
    var i := 0;
    while i < |p|
      invariant 0 <= i <= |p|
      invariant PassSoFar(p, i, q, changed, trans, alphabet)
      invariant KeepsSignatureClasses(p, i, q, trans, alphabet)
    {
      var group := p[i];
      var parts := SplitGroup(group, p, trans, alphabet);
      PassStep(p, universe, i, q, changed, parts, trans, alphabet);
      ClassesStep(p, universe, i, q, parts, trans, alphabet);
      if |parts| > 1 {
        changed := true;
        q := q + parts;
      } else {
        q := q + [group];
      }
      i := i + 1;
    }
    assert p[..i] == p;
  }

  /** The parts of one group each lie in it; a group split into one part is unchanged and uniform. */
  lemma GroupSplit(p: Partition, i: nat, parts: Partition, trans: DRelation, alphabet: seq<Symbol>)
    requires i < |p| && p[i] != {} && SplitsBy(parts, p[i], p, trans, alphabet)
    ensures |parts| >= 1
    ensures forall j | 0 <= j < |parts| :: parts[j] <= p[i]
    ensures |parts| <= 1 ==> parts == [p[i]]
    ensures |parts| <= 1 ==> forall s, t | s in p[i] && t in p[i] :: Key(p, trans, alphabet, s) == Key(p, trans, alphabet, t)
  {
    var x :| x in p[i];
    assert x in Flatten(parts);
    forall j | 0 <= j < |parts| ensures parts[j] <= p[i] {
      forall y | y in parts[j] ensures y in p[i] { assert y in Flatten(parts); }
    }
    if |parts| == 1 {
      forall y | y in p[i] ensures y in parts[0] { assert y in Flatten(parts); }
      assert parts[0] == p[i];
      assert parts == [parts[0]];
    }
  }

  /** Splitting blocks never mixes accepting and non-accepting states. */
  lemma RefinesSeparates(q: Partition, p: Partition, finals: set<DState>)
    requires Refines(q, p) && Separates(p, finals)
    ensures Separates(q, finals)
  {
    forall j | 0 <= j < |q| ensures q[j] <= finals || q[j] * finals == {} {
      var i :| 0 <= i < |p| && q[j] <= p[i];
    }
  }

  // ---------------------------------------------------------------------------
  // Language-equivalent states

  /** Every state of `universe` has a move on every symbol of `alphabet`, into `universe`. */
  predicate Total(trans: DRelation, alphabet: seq<Symbol>, universe: set<DState>) {
    forall s, a | s in universe && a in alphabet :: (s, a) in trans && trans[(s, a)] in universe
  }

  /** `s` and `t` accept the same words over `alphabet`: they are Myhill-Nerode equivalent. */
  ghost predicate Equivalent(trans: DRelation, finals: set<DState>, alphabet: seq<Symbol>, s: DState, t: DState) {
    forall w | Over(w, alphabet) :: DAccepts(trans, finals, s, w) <==> DAccepts(trans, finals, t, w)
  }

  /** `s` and `t` lie in the same blocks of `p`. */
  predicate Together(p: Partition, s: DState, t: DState) {
    forall i | 0 <= i < |p| :: s in p[i] <==> t in p[i]
  }

  /** No block of `p` separates two equivalent states of `universe`. */
  ghost predicate KeepsEquivalent(p: Partition, universe: set<DState>, trans: DRelation, finals: set<DState>,
                                  alphabet: seq<Symbol>) {
    forall s, t | s in universe && t in universe && Equivalent(trans, finals, alphabet, s, t) :: Together(p, s, t)
  }

  /** Equivalent states agree on the empty word: both accept or both reject. */
  lemma EquivalentFinal(trans: DRelation, finals: set<DState>, alphabet: seq<Symbol>, s: DState, t: DState)
    requires Equivalent(trans, finals, alphabet, s, t)
    ensures s in finals <==> t in finals
  {
    assert Over([], alphabet);
    assert DAccepts(trans, finals, s, []) <==> DAccepts(trans, finals, t, []);
  }

  /** The moves of equivalent states on one symbol lead to equivalent states. */
  lemma EquivalentMove(trans: DRelation, finals: set<DState>, alphabet: seq<Symbol>, universe: set<DState>,
                       s: DState, t: DState, a: Symbol)
    requires Total(trans, alphabet, universe) && s in universe && t in universe && a in alphabet
    requires Equivalent(trans, finals, alphabet, s, t)
    ensures Equivalent(trans, finals, alphabet, trans[(s, a)], trans[(t, a)])
  {
    forall w | Over(w, alphabet)
      ensures DAccepts(trans, finals, trans[(s, a)], w) <==> DAccepts(trans, finals, trans[(t, a)], w)
    {
      var aw := [a] + w;
      assert Over(aw, alphabet) by {
        forall k | 0 <= k < |aw| ensures aw[k] in alphabet {
          if k > 0 { assert aw[k] == w[k - 1]; }
        }
      }
      assert aw[1..] == w;
      assert DAccepts(trans, finals, s, aw) <==> DAccepts(trans, finals, t, aw);
    }
  }

  /** Under a partition that keeps equivalent states together, equivalent states share their signature. */
  lemma EquivalentKey(p: Partition, universe: set<DState>, trans: DRelation, finals: set<DState>,
                      alphabet: seq<Symbol>, s: DState, t: DState)
    requires IsPartition(p, universe) && Total(trans, alphabet, universe)
    requires KeepsEquivalent(p, universe, trans, finals, alphabet)
    requires s in universe && t in universe && Equivalent(trans, finals, alphabet, s, t)
    ensures Key(p, trans, alphabet, s) == Key(p, trans, alphabet, t)
  {
    forall k | 0 <= k < |alphabet|
      ensures Key(p, trans, alphabet, s)[k] == Key(p, trans, alphabet, t)[k]
    {
      var a := alphabet[k];
      var x, y := trans[(s, a)], trans[(t, a)];
      EquivalentMove(trans, finals, alphabet, universe, s, t, a);
      assert Together(p, x, y);
      var i := BlockOf(p, x).value;
      BlockOfUnique(p, x, i);
      BlockOfUnique(p, y, i);
    }
  }

  /** The accepting / non-accepting split keeps equivalent states together. */
  lemma InitialKeepsEquivalent(p: Partition, universe: set<DState>, trans: DRelation, finals: set<DState>,
                               alphabet: seq<Symbol>)
    requires forall i | 0 <= i < |p| :: p[i] == finals || p[i] == universe - finals
    ensures KeepsEquivalent(p, universe, trans, finals, alphabet)
  {
    forall s, t | s in universe && t in universe && Equivalent(trans, finals, alphabet, s, t)
      ensures Together(p, s, t)
    {
      EquivalentFinal(trans, finals, alphabet, s, t);
    }
  }

  /** A round that splits blocks only by signature keeps equivalent states together. */
  lemma RoundKeepsEquivalent(p: Partition, q: Partition, universe: set<DState>, trans: DRelation,
                             finals: set<DState>, alphabet: seq<Symbol>)
    requires IsPartition(p, universe) && IsPartition(q, universe) && Total(trans, alphabet, universe)
    requires KeepsSignatureClasses(p, |p|, q, trans, alphabet)
    requires KeepsEquivalent(p, universe, trans, finals, alphabet)
    ensures KeepsEquivalent(q, universe, trans, finals, alphabet)
  {
    forall s, t | s in universe && t in universe && Equivalent(trans, finals, alphabet, s, t)
      ensures Together(q, s, t)
    {
      EquivalentKey(p, universe, trans, finals, alphabet, s, t);
      var i := BlockOf(p, s).value;
      assert Together(p, s, t);
      assert t in p[i];
      forall j | 0 <= j < |q| ensures s in q[j] <==> t in q[j] {
      }
    }
  }

  // ---------------------------------------------------------------------------
  // The refinement loop

  /** `partitions = [finals] if finals` then `[non_finals] if non_finals` (core.py:82-88). */
  method InitialPartition(states: seq<DState>, finals: set<DState>) returns (p: Partition)
    ensures IsPartition(p, Elems(states) + finals) && Separates(p, finals)
    ensures |p| <= 2
    ensures forall i | 0 <= i < |p| :: p[i] == finals || p[i] == Elems(states) - finals
  {
    var nonFinals := Elems(states) - finals;
    p := [];
    if finals != {} {
      p := p + [finals];
    }
    if nonFinals != {} {
      p := p + [nonFinals];
    }
    forall x | x in finals + nonFinals ensures x in Flatten(p) {
      var k := if x in finals then 0 else |p| - 1;
      assert x in p[k];
    }
  }

  /** `while changed: ...` (core.py:94-108): refine until a round splits no block. */
  method Refine(states: seq<DState>, alphabet: seq<Symbol>, trans: DRelation, finals: set<DState>)
    returns (p: Partition)
    ensures IsPartition(p, Elems(states) + finals) && Separates(p, finals) && Stable(p, trans, alphabet)
    ensures Total(trans, alphabet, Elems(states) + finals) ==>
      KeepsEquivalent(p, Elems(states) + finals, trans, finals, alphabet)
  {
    ghost var universe := Elems(states) + finals;
    p := InitialPartition(states, finals);
    assert Elems(states) - finals == universe - finals;
    InitialKeepsEquivalent(p, universe, trans, finals, alphabet);
    var changed := true;
    PartitionSize(p, universe);
    while changed
      invariant IsPartition(p, universe) && Separates(p, finals) && |p| <= |universe|
      invariant !changed ==> Stable(p, trans, alphabet)
      invariant Total(trans, alphabet, universe) ==> KeepsEquivalent(p, universe, trans, finals, alphabet)
      decreases |universe| - |p| + (if changed then 1 else 0)
    {
      ghost var before := p;
      p, changed := RefineOnce(p, universe, trans, alphabet);
      RefinesSeparates(p, before, finals);
      PartitionSize(p, universe);
      if Total(trans, alphabet, universe) {
        RoundKeepsEquivalent(before, p, universe, trans, finals, alphabet);
      }
    }
  }

  // ---------------------------------------------------------------------------
  // Labels of the minimised states

  /** `state_to_label` (core.py:111-114): a subset is named by its sorted members run together. */
  function StateLabel(d: DState): string {
    match d
    case Subset(m) => Join(SortedElems(m), "")
    case Dead => "q_D"
  }

  /** The labels of the states of `g`, one per state, in some order. */
  ghost function LabelList(g: set<DState>): seq<string>
    decreases g
  {
    if g == {} then []
    else
      var x :| x in g;
      [StateLabel(x)] + LabelList(g - {x})
  }

  /** The labels of a group do not depend on the order its states are visited in. */
  lemma {:induction false} LabelListRemove(g: set<DState>, y: DState)
    requires y in g
    ensures multiset(LabelList(g)) == multiset{StateLabel(y)} + multiset(LabelList(g - {y}))
    decreases g
  {
    var x :| x in g && LabelList(g) == [StateLabel(x)] + LabelList(g - {x});
    var lx, ly := StateLabel(x), StateLabel(y);
    assert multiset(LabelList(g)) == multiset{lx} + multiset(LabelList(g - {x}));
    if x != y {
      var rest := g - {x} - {y};
      assert g - {y} - {x} == rest;
      LabelListRemove(g - {x}, y);
      LabelListRemove(g - {y}, x);
      var m := multiset(LabelList(rest));
      assert multiset(LabelList(g)) == multiset{lx} + (multiset{ly} + m);
      assert multiset(LabelList(g - {y})) == multiset{lx} + m;
      MultisetSwap(lx, ly, m);
    }
  }

  lemma MultisetSwap(a: string, b: string, m: multiset<string>)
    ensures multiset{a} + (multiset{b} + m) == multiset{b} + (multiset{a} + m)
  {
  }

  /**
   * The label of a block (core.py:116-119): a single state keeps its own label;
   * a larger block is `{` + its states' labels, sorted, joined by `,` + `}`.
   */
  ghost function GroupLabel(g: set<DState>): string {
    if |g| == 1 then
      var x :| x in g;
      StateLabel(x)
    else
      "{" + Join(SortSeq(LabelList(g)), ",") + "}"
  }

  /** Computes the name of `group` by visiting its states in an arbitrary order. */
  method LabelOf(group: set<DState>) returns (name: string)
    ensures name == GroupLabel(group)
  {
    var names: seq<string> := [];
    var todo := group;
    var last: DState := Dead;
    while todo != {}
      invariant todo <= group
      invariant multiset(names) + multiset(LabelList(todo)) == multiset(LabelList(group))
      invariant todo != group ==> last in group
      decreases todo
    {
      var s :| s in todo;
      LabelListRemove(todo, s);
      names := names + [StateLabel(s)];
      last := s;
      todo := todo - {s};
    }
    if |group| == 1 {
      name := StateLabel(last);
    } else {
      name := "{" + Join(SortSeq(names), ",") + "}";
    }
    LabelOfNames(group, names, last);
  }

  /** The label built from the collected names is the label of the group. */
  lemma LabelOfNames(group: set<DState>, names: seq<string>, last: DState)
    requires multiset(names) == multiset(LabelList(group))
    requires group != {} ==> last in group
    ensures GroupLabel(group) == if |group| == 1 then StateLabel(last) else "{" + Join(SortSeq(names), ",") + "}"
  {
    if |group| == 1 {
      assert group == {last} by {
        assert |group - {last}| == 0;
      }
    } else {
      SortedUnique(SortSeq(names), SortSeq(LabelList(group)));
    }
  }

  // ---------------------------------------------------------------------------
  // The minimised automaton

  /** `state_map`: every state is mapped to the index of its block (core.py:115-121). */
  method StateMapOf(p: Partition) returns (stateMap: map<DState, nat>)
    requires Disjoint(p)
    ensures forall d :: d in stateMap <==> d in Flatten(p)
    ensures forall d | d in stateMap :: stateMap[d] < |p| && d in p[stateMap[d]]
  {
    stateMap := map[];
    var i := 0;
    while i < |p|
      invariant 0 <= i <= |p|
      invariant forall d :: d in stateMap <==> d in Flatten(p[..i])
      invariant forall d | d in stateMap :: stateMap[d] < i && d in p[stateMap[d]]
    {
      var todo := p[i];
      while todo != {}
        invariant todo <= p[i]
        invariant forall d :: d in stateMap <==> d in Flatten(p[..i]) || d in p[i] - todo
        invariant forall d | d in stateMap :: stateMap[d] <= i && d in p[stateMap[d]]
        decreases todo
      {
        var s :| s in todo;
        stateMap := stateMap[s := i];
        todo := todo - {s};
      }
      FlattenSnoc(p, i);
      i := i + 1;
    }
    assert p[..i] == p;
  }

  lemma FlattenSnoc(p: Partition, i: nat)
    requires i < |p|
    ensures Flatten(p[..i + 1]) == Flatten(p[..i]) + p[i]
  {
    forall x | x in Flatten(p[..i + 1]) ensures x in Flatten(p[..i]) + p[i] {
      var k :| 0 <= k < i + 1 && x in p[..i + 1][k];
      if k < i { assert x in p[..i][k]; }
    }
    forall x | x in Flatten(p[..i]) ensures x in Flatten(p[..i + 1]) {
      var k :| 0 <= k < i && x in p[..i][k];
      assert x in p[..i + 1][k];
    }
    assert p[..i + 1][i] == p[i];
  }

  /** In a stable partition two states of one block have moves on `a` into the same block, or none. */
  lemma StableMove(p: Partition, trans: DRelation, alphabet: seq<Symbol>, universe: set<DState>,
                   i: nat, s: DState, t: DState, a: Symbol)
    requires IsPartition(p, universe) && Stable(p, trans, alphabet)
    requires forall k | k in trans :: trans[k] in universe
    requires i < |p| && s in p[i] && t in p[i] && a in alphabet
    ensures (s, a) in trans <==> (t, a) in trans
    ensures (s, a) in trans ==> BlockOf(p, trans[(s, a)]) == BlockOf(p, trans[(t, a)])
  {
    var k :| 0 <= k < |alphabet| && alphabet[k] == a;
    assert Key(p, trans, alphabet, s)[k] == Key(p, trans, alphabet, t)[k];
    if (s, a) in trans { assert trans[(s, a)] in Flatten(p); }
    if (t, a) in trans { assert trans[(t, a)] in Flatten(p); }
  }

  /** Every state of block `i` moves on each symbol exactly as `orig` does, into the same block. */
  ghost predicate Agrees(p: Partition, alphabet: seq<Symbol>, trans: DRelation, stateMap: map<DState, nat>,
                         i: nat, orig: DState)
    requires i < |p|
  {
    forall a, s | a in alphabet && s in p[i] ::
      ((s, a) in trans <==> (orig, a) in trans) &&
      ((orig, a) in trans ==> trans[(orig, a)] in stateMap && stateMap[trans[(orig, a)]] < |p| &&
                              trans[(s, a)] in p[stateMap[trans[(orig, a)]]])
  }

  lemma StableAgrees(p: Partition, alphabet: seq<Symbol>, trans: DRelation, stateMap: map<DState, nat>,
                     universe: set<DState>, i: nat, orig: DState)
    requires IsPartition(p, universe) && Stable(p, trans, alphabet)
    requires forall k | k in trans :: trans[k] in universe
    requires forall d :: d in stateMap <==> d in universe
    requires forall d | d in stateMap :: stateMap[d] < |p| && d in p[stateMap[d]]
    requires i < |p| && orig in p[i]
    ensures Agrees(p, alphabet, trans, stateMap, i, orig)
  {
    forall a, s | a in alphabet && s in p[i]
      ensures (s, a) in trans <==> (orig, a) in trans
      ensures (orig, a) in trans ==> trans[(s, a)] in p[stateMap[trans[(orig, a)]]]
    {
      StableMove(p, trans, alphabet, universe, i, orig, s, a);
      if (orig, a) in trans {
        var dst := trans[(orig, a)];
        BlockOfUnique(p, dst, stateMap[dst]);
      }
    }
  }

  /** The moves of block `i`, taken from its representative `orig` (core.py:128-133). */
  method BlockMoves(p: Partition, alphabet: seq<Symbol>, trans: DRelation, stateMap: map<DState, nat>,
                    i: nat, orig: DState, minTrans0: map<(nat, Symbol), nat>)
    returns (minTrans: map<(nat, Symbol), nat>)
    requires i < |p| && orig in p[i] && Agrees(p, alphabet, trans, stateMap, i, orig)
    requires forall k | k in minTrans0 :: k.0 != i
    ensures forall k | k in minTrans0 :: k in minTrans && minTrans[k] == minTrans0[k]
    ensures forall k | k in minTrans :: k in minTrans0 || (k.0 == i && k.1 in alphabet)
    ensures forall a, s | s in p[i] && a in alphabet :: (i, a) in minTrans <==> (s, a) in trans
    ensures forall a, s | (i, a) in minTrans && s in p[i] :: minTrans[(i, a)] < |p| && trans[(s, a)] in p[minTrans[(i, a)]]
  {
    minTrans := minTrans0;
    var k := 0;
    while k < |alphabet|
      invariant 0 <= k <= |alphabet|
      invariant forall key | key in minTrans0 :: key in minTrans && minTrans[key] == minTrans0[key]
      invariant forall key | key in minTrans :: key in minTrans0 || (key.0 == i && key.1 in alphabet[..k])
      invariant forall a, s | s in p[i] && a in alphabet[..k] :: (i, a) in minTrans <==> (s, a) in trans
      invariant forall a, s | (i, a) in minTrans && s in p[i] :: minTrans[(i, a)] < |p| && trans[(s, a)] in p[minTrans[(i, a)]]
    {
      var a := alphabet[k];
      if (orig, a) in trans {
        minTrans := minTrans[(i, a) := stateMap[trans[(orig, a)]]];
      }
      assert alphabet[..k + 1] == alphabet[..k] + [a];
      k := k + 1;
    }
    assert alphabet[..k] == alphabet;
  }

  /** `min_trans` (core.py:126-133): the moves of an arbitrary representative of each block. */
  method MinTransitions(p: Partition, alphabet: seq<Symbol>, trans: DRelation, stateMap: map<DState, nat>,
                        ghost universe: set<DState>)
    returns (minTrans: map<(nat, Symbol), nat>)
    requires IsPartition(p, universe) && Stable(p, trans, alphabet)
    requires forall k | k in trans :: trans[k] in universe
    requires forall d :: d in stateMap <==> d in universe
    requires forall d | d in stateMap :: stateMap[d] < |p| && d in p[stateMap[d]]
    ensures forall i, a, s | 0 <= i < |p| && s in p[i] && a in alphabet :: (i, a) in minTrans <==> (s, a) in trans
    ensures forall k | k in minTrans :: k.0 < |p| && k.1 in alphabet && minTrans[k] < |p|
    ensures forall i, a, s | (i, a) in minTrans && s in p[i] :: trans[(s, a)] in p[minTrans[(i, a)]]
  {
    minTrans := map[];
    var i := 0;
    while i < |p|
      invariant 0 <= i <= |p|
      invariant forall j, a, s | 0 <= j < i && s in p[j] && a in alphabet :: (j, a) in minTrans <==> (s, a) in trans
      invariant forall k | k in minTrans :: k.0 < i && k.1 in alphabet && minTrans[k] < |p|
      invariant forall j, a, s | (j, a) in minTrans && s in p[j] :: trans[(s, a)] in p[minTrans[(j, a)]]
    {
      var orig :| orig in p[i];
      StableAgrees(p, alphabet, trans, stateMap, universe, i, orig);
      minTrans := BlockMoves(p, alphabet, trans, stateMap, i, orig, minTrans);
      i := i + 1;
    }
  }

  /**
   * `minimize_dfa` (core.py:79-134). The minimised states are the indices of
   * the final blocks; `labels[i]` is the name the source gives block `i`.
   * `state_map[start_state]` at core.py:124 needs the start to be a state, and
   * `state_map.get(dst, dst)` at core.py:133 is modelled for destinations that
   * are states.
   */
  method MinimizeDfa(states: seq<DState>, alphabet: seq<Symbol>, eps: Symbol, trans: DRelation,
                     start: DState, finals: set<DState>)
    returns (blocks: Partition, labels: seq<string>, minAlphabet: seq<Symbol>,
             minTrans: map<(nat, Symbol), nat>, minStart: nat, minFinals: set<nat>)
    requires start in states || start in finals
    requires forall k | k in trans :: trans[k] in states || trans[k] in finals
    ensures minAlphabet == Without(alphabet, eps)
    ensures IsPartition(blocks, Elems(states) + finals) && Separates(blocks, finals)
    ensures Stable(blocks, trans, minAlphabet)
    ensures Total(trans, minAlphabet, Elems(states) + finals) ==>
      KeepsEquivalent(blocks, Elems(states) + finals, trans, finals, minAlphabet)
    ensures |labels| == |blocks| && forall i | 0 <= i < |blocks| :: labels[i] == GroupLabel(blocks[i])
    ensures minStart < |blocks| && start in blocks[minStart]
    ensures forall i :: i in minFinals <==> 0 <= i < |blocks| && blocks[i] <= finals
    ensures forall i, a, s | 0 <= i < |blocks| && s in blocks[i] && a in minAlphabet ::
      (i, a) in minTrans <==> (s, a) in trans
    ensures forall k | k in minTrans :: k.0 < |blocks| && k.1 in minAlphabet && minTrans[k] < |blocks|
    ensures forall i, a, s | (i, a) in minTrans && s in blocks[i] :: trans[(s, a)] in blocks[minTrans[(i, a)]]
  {
    ghost var universe := Elems(states) + finals;
    minAlphabet := Without(alphabet, eps);
    blocks := Refine(states, minAlphabet, trans, finals);
    labels := [];
    var i := 0;
    while i < |blocks|
      invariant 0 <= i <= |blocks|
      invariant |labels| == i && forall j | 0 <= j < i :: labels[j] == GroupLabel(blocks[j])
    {
      var name := LabelOf(blocks[i]);
      labels := labels + [name];
      i := i + 1;
    }
    var stateMap := StateMapOf(blocks);
    minStart := stateMap[start];
    minFinals := set s | s in finals :: stateMap[s];
    forall j ensures j in minFinals <==> 0 <= j < |blocks| && blocks[j] <= finals {
      if j in minFinals {
        var s :| s in finals && stateMap[s] == j;
        assert s in blocks[j] * finals;
      }
      if 0 <= j < |blocks| && blocks[j] <= finals {
        var s :| s in blocks[j];
        assert s in Flatten(blocks);
        BlockOfUnique(blocks, s, j);
        BlockOfUnique(blocks, s, stateMap[s]);
      }
    }
    minTrans := MinTransitions(blocks, minAlphabet, trans, stateMap, universe);
  }
}
