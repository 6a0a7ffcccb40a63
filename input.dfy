/**
 * How the dashboard reads an NFA (NFA_DFA.py:164-199), from an uploaded table
 * or from the manual form, and the checks it makes before converting it
 * (NFA_DFA.py:202-211).
 */
module Input {
  import opened Automata
  import opened Strings

  /** The start marker of an uploaded row, an arrow, as NFA_DFA.py spells it. */
  const Arrow: string := "\U{201A}\U{00DC}\U{00ED}"
  /** The empty-cell marker, a phi, as NFA_DFA.py spells it. */
  const Phi: string := "\U{0153}\U{00DC}"
  /** The symbol the manual form offers for empty moves, as NFA_DFA.py:196 spells it. */
  const UiEpsilon: Symbol := "\U{0152}\U{00B5}"
  /** The column holding the state names. */
  const StateColumn: string := "State"

  /** An NFA as the dashboard hands it to the conversion. */
  datatype Nfa = Nfa(states: seq<State>, alphabet: seq<Symbol>, start: State, finals: seq<State>,
                     transitions: Relation)

  datatype Result<T, E> = Ok(value: T) | Err(error: E)

  // ---------------------------------------------------------------------------
  // Uploaded table (NFA_DFA.py:164-187)

  /** A row of the sheet: each column name to `str()` of its cell (an empty cell reads `"nan"`). */
  type Row = map<string, string>

  datatype Sheet = Sheet(columns: seq<string>, rows: seq<Row>)

  /** Every row has a cell in every column. */
  predicate WellFormed(sheet: Sheet) {
    forall i | 0 <= i < |sheet.rows| :: Elems(sheet.columns) <= sheet.rows[i].Keys
  }

  /**
   * The two ways reading a sheet fails: `df['State']` without that column, and
   * `nfa_states[0]` on a sheet without rows. Both are uncaught exceptions.
   */
  datatype UploadError = NoStateColumn | NoRows

  /** `raw.replace(arrow, "").replace("*", "")`: a state name carries no `*`. */
  function StateName(raw: string): (r: State)
    ensures '*' !in r
    ensures '*' !in raw && !Contains(raw, Arrow) ==> r == raw
  {
    RemoveAllChar(RemoveAll(raw, Arrow), '*');
    UnmarkedName(raw);
    RemoveAll(RemoveAll(raw, Arrow), "*")
  }

  lemma UnmarkedName(raw: string)
    ensures '*' !in raw && !Contains(raw, Arrow) ==> RemoveAll(RemoveAll(raw, Arrow), "*") == raw
  {
    if '*' !in raw && !Contains(raw, Arrow) {
      RemoveAllAbsent(raw, Arrow);
      ContainsChar(raw, '*');
      RemoveAllAbsent(raw, "*");
    }
  }

  /** The state a row names. */
  function RowName(row: Row): State
    requires StateColumn in row
  {
    StateName(row[StateColumn])
  }

  /**
   * A cell of the table: blank, the phi marker or `nan` in any case give no
   * entry; anything else is a comma list, trimmed, with blank pieces dropped.
   */
  function ParseCell(raw: string): (r: Option<set<State>>)
    ensures r.Some? <==> Strip(raw) != "" && Strip(raw) != Phi && !IsNanText(Strip(raw))
    ensures r.Some? ==> forall t | t in r.value :: t != "" && Stripped(t) && ',' !in t
  {
    var cell := Strip(raw);
    if cell != "" && cell != Phi && !IsNanText(cell) then Some(Elems(ParseList(cell))) else None
  }

  /**
   * A cell written as the comma list of some clean names reads back as those
   * names, unless the list happens to spell the phi marker or `nan`.
   */
  lemma ParseCellOfJoin(xs: seq<string>)
    requires xs != [] && forall i | 0 <= i < |xs| :: xs[i] != [] && Stripped(xs[i]) && ',' !in xs[i]
    requires Join(xs, [',']) != Phi && !IsNanText(Join(xs, [',']))
    ensures ParseCell(Join(xs, [','])) == Some(Elems(xs))
  {
    JoinStripped(xs, ',');
    StripOfStripped(Join(xs, [',']));
    JoinNonEmpty(xs, [',']);
    ParseListOfJoin(xs);
  }

  /** The entry a move has in a relation, if any. */
  function Lookup(rel: Relation, s: State, a: Symbol): Option<set<State>> {
    if (s, a) in rel then Some(rel[(s, a)]) else None
  }

  /** Every row has a `State` cell and a cell for `a`. */
  predicate HasCells(rows: seq<Row>, a: Symbol) {
    forall i | 0 <= i < |rows| :: StateColumn in rows[i] && a in rows[i]
  }

  /** The last position holding `true`, if any. */
  function LastTrue(flags: seq<bool>): (r: Option<nat>)
    ensures r.Some? ==> (r.value < |flags| && flags[r.value] && forall j | r.value < j < |flags| :: !flags[j])
    ensures r.None? ==> forall j | 0 <= j < |flags| :: !flags[j]
    decreases |flags|
  {
    if flags == [] then None
    else if flags[|flags| - 1] then Some(|flags| - 1)
    else LastTrue(flags[..|flags| - 1])
  }

  /** Row `row` gives an entry for the move of `s` on `a`. */
  predicate Decides(row: Row, s: State, a: Symbol)
    requires StateColumn in row && a in row
  {
    RowName(row) == s && ParseCell(row[a]).Some?
  }

  /**
   * The entry `nfa_transitions[(s, a)]` ends with: later rows overwrite
   * earlier ones, so the last row that gives one decides it.
   */
  function LastCell(rows: seq<Row>, s: State, a: Symbol): Option<set<State>>
    requires HasCells(rows, a)
  {
    var k := LastTrue(seq(|rows|, j requires 0 <= j < |rows| => Decides(rows[j], s, a)));
    if k.Some? then ParseCell(rows[k.value][a]) else None
  }

  /** The row marked as the start that decides `start_state`: the last one, if any. */
  function LastStartRow(rows: seq<Row>): Option<nat>
    requires forall i | 0 <= i < |rows| :: StateColumn in rows[i]
  {
    LastTrue(seq(|rows|, j requires 0 <= j < |rows| => Contains(rows[j][StateColumn], Arrow)))
  }

  /** The names of the rows marked accepting, in row order. */
  function MarkedFinals(rows: seq<Row>): (r: seq<State>)
    requires forall i | 0 <= i < |rows| :: StateColumn in rows[i]
    ensures |r| <= |rows|
    ensures forall x :: x in r <==> exists i | 0 <= i < |rows| :: '*' in rows[i][StateColumn] && RowName(rows[i]) == x
    decreases |rows|
  {
    if rows == [] then []
    else
      var n := |rows| - 1;
      var front := rows[..n];
      assert forall i | 0 <= i < n :: front[i] == rows[i];
      MarkedFinals(front) + (if '*' in rows[n][StateColumn] then [RowName(rows[n])] else [])
  }

  /** A prefix of `rows` still has a cell for `a` in every row. */
  lemma PrefixCells(rows: seq<Row>, i: nat, a: Symbol)
    requires i <= |rows| && HasCells(rows, a)
    ensures HasCells(rows[..i], a)
  {
  }

  /** The moves after the cells of `row` for the symbols in `done`, on top of `trans0`. */
  ghost predicate RowDone(row: Row, state: State, alphabet: seq<Symbol>, done: set<Symbol>, trans0: Relation,
                          trans: Relation)
    requires forall a | a in alphabet :: a in row
  {
    (forall k | k in trans :: k in trans0 || (k.0 == state && k.1 in alphabet)) &&
    forall s, a | a in alphabet :: (Lookup(trans, s, a) ==
      if s == state && a in done && ParseCell(row[a]).Some? then ParseCell(row[a]) else Lookup(trans0, s, a))
  }

  /** Reading the cell for `a` extends the moves by that cell's entry. */
  lemma RowStep(row: Row, state: State, alphabet: seq<Symbol>, done: set<Symbol>, trans0: Relation,
                trans1: Relation, a: Symbol, trans: Relation)
    requires forall b | b in alphabet :: b in row
    requires a in alphabet && RowDone(row, state, alphabet, done, trans0, trans1)
    requires ParseCell(row[a]).Some? ==> trans == trans1[(state, a) := ParseCell(row[a]).value]
    requires ParseCell(row[a]).None? ==> trans == trans1
    ensures RowDone(row, state, alphabet, done + {a}, trans0, trans)
  {
    forall s, b | b in alphabet
      ensures Lookup(trans, s, b) == if s == state && b in done + {a} && ParseCell(row[b]).Some?
                                     then ParseCell(row[b]) else Lookup(trans0, s, b)
    {
      if (s, b) != (state, a) {
        assert Lookup(trans, s, b) == Lookup(trans1, s, b);
      }
    }
  }

  /** The inner loop `for a in alphabet` of NFA_DFA.py:180-184, for one row. */
  method AddRow(row: Row, state: State, alphabet: seq<Symbol>, trans0: Relation) returns (trans: Relation)
    requires forall a | a in alphabet :: a in row
    ensures forall k | k in trans :: k in trans0 || (k.0 == state && k.1 in alphabet)
    ensures forall s, a | a in alphabet :: (Lookup(trans, s, a) ==
      if s == state && ParseCell(row[a]).Some? then ParseCell(row[a]) else Lookup(trans0, s, a))
  {
    trans := trans0;
    assert RowDone(row, state, alphabet, {}, trans0, trans);
    assert alphabet[..0] == [];
    for j := 0 to |alphabet|
      invariant RowDone(row, state, alphabet, Elems(alphabet[..j]), trans0, trans)
    {
      var a := alphabet[j];
      var cell := Strip(row[a]);
      ghost var trans1 := trans;
      if cell != "" && cell != Phi && !IsNanText(cell) {
        var nextStates := ParseList(cell);
        trans := trans[(state, a) := Elems(nextStates)];
      }
      RowStep(row, state, alphabet, Elems(alphabet[..j]), trans0, trans1, a, trans);
      ElemsSnoc(alphabet, j);
    }
    assert alphabet[..|alphabet|] == alphabet;
    assert RowDone(row, state, alphabet, Elems(alphabet), trans0, trans);
  }

  /** The rows up to `i` decide the moves as far as they go. */
  ghost predicate MovesUpTo(rows: seq<Row>, i: nat, alphabet: seq<Symbol>, trans: Relation)
    requires i <= |rows| && forall a | a in alphabet :: HasCells(rows, a)
  {
    (forall k | k in trans :: k.1 in alphabet) &&
    forall s, a | a in alphabet :: PrefixCells(rows, i, a); Lookup(trans, s, a) == LastCell(rows[..i], s, a)
  }

  lemma LastTrueSnoc(flags: seq<bool>, b: bool)
    ensures LastTrue(flags + [b]) == if b then Some(|flags|) else LastTrue(flags)
  {
    assert (flags + [b])[..|flags|] == flags;
  }

  /** The last row of a prefix either decides `(s, a)` or leaves it to the rows before. */
  lemma LastCellSnoc(rows: seq<Row>, i: nat, s: State, a: Symbol)
    requires i < |rows| && HasCells(rows, a)
    ensures HasCells(rows[..i], a) && HasCells(rows[..i + 1], a)
    ensures LastCell(rows[..i + 1], s, a) ==
      if Decides(rows[i], s, a) then ParseCell(rows[i][a]) else LastCell(rows[..i], s, a)
  {
    var front, next := rows[..i], rows[..i + 1];
    var f := seq(|front|, j requires 0 <= j < |front| => Decides(front[j], s, a));
    var g := seq(|next|, j requires 0 <= j < |next| => Decides(next[j], s, a));
    var b := Decides(rows[i], s, a);
    assert g == f + [b] by {
      forall j | 0 <= j < |g| ensures g[j] == (f + [b])[j] {
        if j < i {
          assert next[j] == front[j];
        }
      }
    }
    LastTrueSnoc(f, b);
  }

  /** The last marked row of a prefix is the newest row if it is marked, else the one before. */
  lemma LastStartRowSnoc(rows: seq<Row>, i: nat)
    requires i < |rows| && forall j | 0 <= j < |rows| :: StateColumn in rows[j]
    ensures LastStartRow(rows[..i + 1]) ==
      if Contains(rows[i][StateColumn], Arrow) then Some(i) else LastStartRow(rows[..i])
  {
    var front, next := rows[..i], rows[..i + 1];
    var f := seq(|front|, j requires 0 <= j < |front| => Contains(front[j][StateColumn], Arrow));
    var g := seq(|next|, j requires 0 <= j < |next| => Contains(next[j][StateColumn], Arrow));
    assert g == f + [Contains(rows[i][StateColumn], Arrow)];
    LastTrueSnoc(f, Contains(rows[i][StateColumn], Arrow));
  }

  /** The prefix of a marked-final listing is the listing of the prefix. */
  lemma MarkedFinalsSnoc(rows: seq<Row>, i: nat)
    requires i < |rows| && forall j | 0 <= j < |rows| :: StateColumn in rows[j]
    ensures MarkedFinals(rows[..i + 1]) ==
      MarkedFinals(rows[..i]) + (if '*' in rows[i][StateColumn] then [RowName(rows[i])] else [])
  {
    assert rows[..i + 1][..i] == rows[..i];
  }

  /** Reading row `i` extends the moves decided by the rows before it. */
  lemma MovesStep(rows: seq<Row>, i: nat, alphabet: seq<Symbol>, trans0: Relation, trans: Relation)
    requires i < |rows| && StateColumn in rows[i] && forall a | a in alphabet :: HasCells(rows, a)
    requires MovesUpTo(rows, i, alphabet, trans0)
    requires forall k | k in trans :: k in trans0 || (k.0 == RowName(rows[i]) && k.1 in alphabet)
    requires forall s, a | a in alphabet :: (Lookup(trans, s, a) ==
      if s == RowName(rows[i]) && ParseCell(rows[i][a]).Some? then ParseCell(rows[i][a]) else Lookup(trans0, s, a))
    ensures MovesUpTo(rows, i + 1, alphabet, trans)
  {
    forall s, a | a in alphabet
      ensures HasCells(rows[..i + 1], a) && Lookup(trans, s, a) == LastCell(rows[..i + 1], s, a)
    {
      LastCellSnoc(rows, i, s, a);
    }
  }

  /** The start row of the rows before `i`, as `start_state` holds it. */
  function StartSoFar(rows: seq<Row>, i: nat): Option<State>
    requires i <= |rows| && forall j | 0 <= j < |rows| :: StateColumn in rows[j]
  {
    var k := LastStartRow(rows[..i]);
    if k.Some? then Some(RowName(rows[k.value])) else None
  }

  /** The loop over the rows of NFA_DFA.py:173-184. */
  method ReadRows(rows: seq<Row>, alphabet: seq<Symbol>)
    returns (startState: Option<State>, finals: seq<State>, trans: Relation)
    requires forall j | 0 <= j < |rows| :: StateColumn in rows[j]
    requires forall a | a in alphabet :: HasCells(rows, a)
    ensures startState == StartSoFar(rows, |rows|)
    ensures finals == MarkedFinals(rows)
    ensures MovesUpTo(rows, |rows|, alphabet, trans)
  {
    startState := None;
    finals := [];
    trans := map[];
    var i := 0;
    while i < |rows|
      invariant 0 <= i <= |rows|
      invariant startState == StartSoFar(rows, i)
      invariant finals == MarkedFinals(rows[..i])
      invariant MovesUpTo(rows, i, alphabet, trans)
    {
      var raw := rows[i][StateColumn];
      var state := StateName(raw);
      LastStartRowSnoc(rows, i);
      MarkedFinalsSnoc(rows, i);
      if Contains(raw, Arrow) {
        startState := Some(state);
      }
      if '*' in raw {
        finals := finals + [state];
      }
      ghost var trans0 := trans;
      trans := AddRow(rows[i], state, alphabet, trans);
      MovesStep(rows, i, alphabet, trans0, trans);
      i := i + 1;
    }
    assert rows[..i] == rows;
  }

  /**
   * NFA_DFA.py:164-187: the states are the rows' names in order, the alphabet
   * the other columns; the last row marked with the arrow gives the start,
   * unless its name is empty or no row is marked, and then the first row does;
   * rows marked `*` give the accepting states in row order; and each move is
   * the last non-blank cell of a row naming its state.
   */
  method ParseUpload(sheet: Sheet) returns (r: Result<Nfa, UploadError>)
    requires WellFormed(sheet)
    ensures StateColumn !in sheet.columns ==> r == Err(NoStateColumn)
    ensures StateColumn in sheet.columns && sheet.rows == [] ==> r == Err(NoRows)
    ensures StateColumn in sheet.columns && sheet.rows != [] ==> r.Ok?
    ensures r.Ok? ==> (StateColumn in sheet.columns && sheet.rows != [] &&
      |r.value.states| == |sheet.rows| &&
      (forall i | 0 <= i < |sheet.rows| :: r.value.states[i] == RowName(sheet.rows[i])) &&
      r.value.alphabet == Without(sheet.columns, StateColumn) &&
      r.value.start == (var k := LastStartRow(sheet.rows);
                        if k.Some? && RowName(sheet.rows[k.value]) != "" then RowName(sheet.rows[k.value])
                        else RowName(sheet.rows[0])) &&
      r.value.finals == MarkedFinals(sheet.rows) &&
      (forall k | k in r.value.transitions :: k.1 in r.value.alphabet) &&
      (forall s, a | a in r.value.alphabet :: Lookup(r.value.transitions, s, a) == LastCell(sheet.rows, s, a)))
  {
    if StateColumn !in sheet.columns {
      return Err(NoStateColumn);
    }
    var rows := sheet.rows;
    var states := seq(|rows|, i requires 0 <= i < |rows| => RowName(rows[i]));
    var alphabet := Without(sheet.columns, StateColumn);
    assert forall a | a in alphabet :: HasCells(rows, a);
    var startState, finals, trans := ReadRows(rows, alphabet);
    assert rows[..|rows|] == rows;
    if rows == [] {
      return Err(NoRows);
    }
    var start := if startState.Some? && startState.value != "" then startState.value else states[0];
    r := Ok(Nfa(states, alphabet, start, finals, trans));
  }

  // ---------------------------------------------------------------------------
  // Manual form (NFA_DFA.py:188-199)

  /** What the box for `(s, a)` holds; an untouched box holds `""`. */
  function Box(boxes: map<(State, Symbol), string>, s: State, a: Symbol): string {
    if (s, a) in boxes then boxes[(s, a)] else ""
  }

  /**
   * `set(ns.strip() for ns in text.split(","))`: blank pieces are kept, so a
   * trailing comma gives the empty name.
   */
  function BoxTargets(text: string): (r: set<State>)
    ensures forall t | t in r :: Stripped(t) && ',' !in t
  {
    var pieces := Split(text, ',');
    SplitPieces(text, ',');
    forall t | t in pieces ensures ',' !in Strip(t) {
      if ',' in Strip(t) { StripChars(t, ','); }
    }
    set k | 0 <= k < |pieces| :: Strip(pieces[k])
  }

  /** The set holds the empty name exactly when some comma piece is blank. */
  lemma BoxTargetsBlank(text: string)
    ensures "" in BoxTargets(text) <==> exists k | 0 <= k < |Split(text, ',')| :: AllSpace(Split(text, ',')[k])
  {
    var pieces := Split(text, ',');
    var targets := BoxTargets(text);
    assert targets == set k | 0 <= k < |pieces| :: Strip(pieces[k]);
    if "" in targets {
      var k :| 0 <= k < |pieces| && Strip(pieces[k]) == "";
      StripEmpty(pieces[k]);
      assert AllSpace(Split(text, ',')[k]);
    }
    if exists k | 0 <= k < |pieces| :: AllSpace(pieces[k]) {
      var k :| 0 <= k < |pieces| && AllSpace(pieces[k]);
      StripEmpty(pieces[k]);
      assert Strip(pieces[k]) in targets;
    }
    assert "" in targets ==> exists k | 0 <= k < |pieces| :: AllSpace(pieces[k]);
    assert (exists k | 0 <= k < |pieces| :: AllSpace(pieces[k])) ==> "" in targets;
    assert pieces == Split(text, ',');
    assert "" in BoxTargets(text) ==> exists k | 0 <= k < |Split(text, ',')| :: AllSpace(Split(text, ',')[k]);
  }

  /** The entry a filled box gives: its trimmed text, read as a comma list. */
  function BoxEntry(boxes: map<(State, Symbol), string>, s: State, a: Symbol): Option<set<State>> {
    if Strip(Box(boxes, s, a)) != "" then Some(BoxTargets(Strip(Box(boxes, s, a)))) else None
  }

  /**
   * The moves the manual form yields, for empty-move symbol `eps`: one for each
   * filled box of a listed state and a symbol of the alphabet or `eps`.
   */
  ghost predicate ManualMoves(states: seq<State>, alphabet: seq<Symbol>, boxes: map<(State, Symbol), string>,
                              eps: Symbol, trans: Relation) {
    forall s, a :: Lookup(trans, s, a) == if s in states && (a in alphabet || a == eps) then BoxEntry(boxes, s, a) else None
  }

  /** The moves after the boxes of `state` for the symbols in `done`. */
  ghost predicate BoxesDone(state: State, done: set<Symbol>, boxes: map<(State, Symbol), string>,
                            trans0: Relation, trans: Relation) {
    forall s, a :: (Lookup(trans, s, a) ==
      if s == state && a in done && BoxEntry(boxes, s, a).Some? then BoxEntry(boxes, s, a) else Lookup(trans0, s, a))
  }

  /** Reading one more box extends the moves by that box's entry. */
  lemma BoxStep(state: State, sym: Symbol, done: set<Symbol>, boxes: map<(State, Symbol), string>,
                trans0: Relation, trans1: Relation, trans: Relation)
    requires BoxesDone(state, done, boxes, trans0, trans1)
    requires Strip(Box(boxes, state, sym)) != "" ==>
      trans == trans1[(state, sym) := BoxTargets(Strip(Box(boxes, state, sym)))]
    requires Strip(Box(boxes, state, sym)) == "" ==> trans == trans1
    ensures BoxesDone(state, done + {sym}, boxes, trans0, trans)
  {
    forall s, a
      ensures Lookup(trans, s, a) == if s == state && a in done + {sym} && BoxEntry(boxes, s, a).Some?
                                     then BoxEntry(boxes, s, a) else Lookup(trans0, s, a)
    {
      if (s, a) != (state, sym) {
        assert Lookup(trans, s, a) == Lookup(trans1, s, a);
      }
    }
  }

  /** One box: `next_states = text.strip()`, stored when non-empty (NFA_DFA.py:197-199). */
  method ReadBox(state: State, sym: Symbol, boxes: map<(State, Symbol), string>, trans0: Relation)
    returns (trans: Relation)
    ensures Strip(Box(boxes, state, sym)) != "" ==>
      trans == trans0[(state, sym) := BoxTargets(Strip(Box(boxes, state, sym)))]
    ensures Strip(Box(boxes, state, sym)) == "" ==> trans == trans0
  {
    trans := trans0;
    var nextStates := Strip(Box(boxes, state, sym));
    if nextStates != "" {
      trans := trans[(state, sym) := BoxTargets(nextStates)];
    }
  }

  /** The inner loop `for sym in alphabet + [eps]` of NFA_DFA.py:196-199, for one state. */
  method AddBoxes(state: State, symbols: seq<Symbol>, boxes: map<(State, Symbol), string>, trans0: Relation)
    returns (trans: Relation)
    ensures forall s, a :: (Lookup(trans, s, a) ==
      if s == state && a in symbols && BoxEntry(boxes, s, a).Some? then BoxEntry(boxes, s, a) else Lookup(trans0, s, a))
  {
    trans := trans0;
    ghost var done: set<Symbol> := {};
    var j := 0;
    while j < |symbols|
      invariant 0 <= j <= |symbols|
      invariant (forall k | 0 <= k < j :: symbols[k] in done) && forall a | a in done :: a in symbols
      invariant BoxesDone(state, done, boxes, trans0, trans)
    {
      var sym := symbols[j];
      ghost var trans1 := trans;
      trans := ReadBox(state, sym, boxes, trans);
      BoxStep(state, sym, done, boxes, trans0, trans1, trans);
      done := done + {sym};
      j := j + 1;
    }
  }

  /** The boxes of one more state extend the moves of the states before it. */
  lemma ManualStep(states: seq<State>, i: nat, alphabet: seq<Symbol>, boxes: map<(State, Symbol), string>,
                   eps: Symbol, trans0: Relation, trans: Relation)
    requires i < |states| && ManualMoves(states[..i], alphabet, boxes, eps, trans0)
    requires forall s, a :: (Lookup(trans, s, a) ==
      if s == states[i] && a in alphabet + [eps] && BoxEntry(boxes, s, a).Some? then BoxEntry(boxes, s, a)
      else Lookup(trans0, s, a))
    ensures ManualMoves(states[..i + 1], alphabet, boxes, eps, trans)
  {
    assert states[..i + 1] == states[..i] + [states[i]];
  }

  /** The loop `for state in nfa_states: for sym in alphabet + [eps]` of NFA_DFA.py:195-199. */
  method ReadBoxes(states: seq<State>, alphabet: seq<Symbol>, eps: Symbol, boxes: map<(State, Symbol), string>)
    returns (trans: Relation)
    ensures ManualMoves(states, alphabet, boxes, eps, trans)
  {
    var symbols := alphabet + [eps];
    trans := map[];
    var i := 0;
    while i < |states|
      invariant 0 <= i <= |states|
      invariant ManualMoves(states[..i], alphabet, boxes, eps, trans)
    {
      ghost var trans0 := trans;
      trans := AddBoxes(states[i], symbols, boxes, trans);
      ManualStep(states, i, alphabet, boxes, eps, trans0, trans);
      i := i + 1;
    }
    assert states[..i] == states;
  }

  /**
   * NFA_DFA.py:188-199: the lists come from `parse_list`, the start is the
   * trimmed text, and every filled box of a listed state and a symbol of the
   * alphabet or `eps` becomes a move.
   */
  method ParseManual(statesText: string, alphabetText: string, startText: string, finalsText: string,
                     boxes: map<(State, Symbol), string>, eps: Symbol) returns (nfa: Nfa)
    ensures nfa.states == ParseList(statesText) && nfa.alphabet == ParseList(alphabetText)
    ensures nfa.start == Strip(startText) && nfa.finals == ParseList(finalsText)
    ensures ManualMoves(nfa.states, nfa.alphabet, boxes, eps, nfa.transitions)
  {
    var states := ParseList(statesText);
    var alphabet := ParseList(alphabetText);
    var start := Strip(startText);
    var finals := ParseList(finalsText);
    var trans := ReadBoxes(states, alphabet, eps, boxes);
    nfa := Nfa(states, alphabet, start, finals, trans);
  }

  // ---------------------------------------------------------------------------
  // Validation (NFA_DFA.py:202-211)

  /** What the conversion needs: the start and the accepting states are listed, and every move stays inside. */
  predicate Valid(nfa: Nfa) {
    nfa.start in nfa.states && Elems(nfa.finals) <= Elems(nfa.states) && Targets(nfa.transitions) <= Elems(nfa.states)
  }

  /** The three messages of the `elif` chain, in the order they are tried. */
  datatype Problem = StartNotAState | FinalNotAState | TargetNotAState

  /** The `elif` chain: the first failing check decides the one message; no message means valid. */
  method Validate(nfa: Nfa) returns (error: Option<Problem>)
    ensures error.None? <==> Valid(nfa)
    ensures error == Some(StartNotAState) <==> nfa.start !in nfa.states
    ensures error == Some(FinalNotAState) <==> nfa.start in nfa.states && !(Elems(nfa.finals) <= Elems(nfa.states))
    ensures error == Some(TargetNotAState) <==>
      nfa.start in nfa.states && Elems(nfa.finals) <= Elems(nfa.states) && !(Targets(nfa.transitions) <= Elems(nfa.states))
  {
    error := None;
    if nfa.start !in nfa.states {
      error := Some(StartNotAState);
    } else if !(Elems(nfa.finals) <= Elems(nfa.states)) {
      error := Some(FinalNotAState);
    } else if exists k | k in nfa.transitions :: exists d | d in nfa.transitions[k] :: d !in nfa.states {
      error := Some(TargetNotAState);
    }
  }

  /**
   * A filled box with a blank piece, such as a trailing comma, yields the empty
   * name, which is never a listed state, so validation stops the run.
   */
  lemma BlankPieceRejected(statesText: string, alphabetText: string, startText: string, finalsText: string,
                           boxes: map<(State, Symbol), string>, eps: Symbol, nfa: Nfa, s: State, a: Symbol)
    requires nfa.states == ParseList(statesText) && nfa.alphabet == ParseList(alphabetText)
    requires ManualMoves(nfa.states, nfa.alphabet, boxes, eps, nfa.transitions)
    requires s in nfa.states && (a in nfa.alphabet || a == eps) && Strip(Box(boxes, s, a)) != ""
    requires exists k | 0 <= k < |Split(Strip(Box(boxes, s, a)), ',')| :: AllSpace(Split(Strip(Box(boxes, s, a)), ',')[k])
    ensures !Valid(nfa)
  {
    assert Lookup(nfa.transitions, s, a) == BoxEntry(boxes, s, a);
    BoxTargetsBlank(Strip(Box(boxes, s, a)));
    assert "" in nfa.transitions[(s, a)];
    assert "" !in nfa.states;
  }
}
