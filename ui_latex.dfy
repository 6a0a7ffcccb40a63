/**
 * The LaTeX builders the dashboard actually runs: NFA_DFA.py:88-147 defines
 * its own `df_to_latex_matrix_phi` and `dfa_to_latex` after importing those
 * of latex.py, and the page calls these (NFA_DFA.py:265, 301, 341). They
 * differ from latex.py's: the start marker is an arrow glyph in front of the
 * name and the final marker a `*` after it, a missing move shows `$\phi$`,
 * and the DFA builder unwraps a set holding one frozenset. Each builder adds
 * to its `latex` string line by line and is proved to produce the table its
 * specification function describes.
 */
module UiLatex {
  import opened Automata
  import opened Strings
  import opened LatexFrame
  import Input
  import LatexTables

  /** The cell of a move that leads nowhere. */
  const PhiCell: string := "$\\phi$"

  /**
   * The head of a state's row (NFA_DFA.py:96-100, 125-128): the arrow glyph in
   * front of the start state, `*` after a final state.
   */
  function Label(name: string, isStart: bool, isFinal: bool): (r: string)
    ensures |r| == |name| + (if isStart then |Input.Arrow| else 0) + (if isFinal then 1 else 0)
    ensures isStart ==> StartsWith(r, Input.Arrow)
    ensures isFinal ==> EndsWith(r, "*")
    ensures OccursAt(name, r, if isStart then |Input.Arrow| else 0)
  {
    var marked := if isStart then Input.Arrow + name else name;
    if isFinal then marked + "*" else marked
  }

  // ---------------------------------------------------------------------------
  // df_to_latex_matrix_phi (NFA_DFA.py:88-113)

  /**
   * NFA_DFA.py:102-106: no destination shows `$\phi$`; several show sorted and
   * `,`-separated; one shows as itself.
   */
  function NfaCell(trans: Relation, s: State, a: Symbol): (r: string)
    ensures Succ(trans, s, a) == {} ==> r == PhiCell
  {
    var nxt := Succ(trans, s, a);
    if nxt == {} then PhiCell
    else if |nxt| > 1 then Join(SortedElems(nxt), ",")
    else SortedElems(nxt)[0]
  }

  function NfaCells(alphabet: seq<Symbol>, trans: Relation, s: State): (r: seq<string>)
    ensures |r| == |alphabet|
  {
    seq(|alphabet|, k requires 0 <= k < |alphabet| => NfaCell(trans, s, alphabet[k]))
  }

  function NfaRow(alphabet: seq<Symbol>, trans: Relation, start: State, finals: set<State>, s: State): string {
    Line(Label(s, s == start, s in finals), NfaCells(alphabet, trans, s), BreakThenHline)
  }

  function NfaRows(states: seq<State>, alphabet: seq<Symbol>, trans: Relation, start: State,
                   finals: set<State>): (r: seq<string>)
    ensures |r| == |states|
  {
    seq(|states|, i requires 0 <= i < |states| => NfaRow(alphabet, trans, start, finals, states[i]))
  }

  /** NFA_DFA.py:93: the symbol the manual form uses for empty moves is typeset as `$\epsilon$`. */
  function NfaHeader(alphabet: seq<Symbol>): string {
    Line("State", HeaderCells(alphabet, Input.UiEpsilon), BreakThenHline)
  }

  /** The table the dashboard's `df_to_latex_matrix_phi` returns. */
  function NfaTable(states: seq<State>, alphabet: seq<Symbol>, trans: Relation, start: State,
                    finals: set<State>, caption: string): string {
    Table(|alphabet| + 1, NfaHeader(alphabet), NfaRows(states, alphabet, trans, start, finals), caption)
  }

  /** The inner loop at NFA_DFA.py:101-106: one cell per symbol. */
  method NfaEntries(alphabet: seq<Symbol>, trans: Relation, s: State) returns (entries: seq<string>)
    ensures entries == NfaCells(alphabet, trans, s)
  {
    entries := [];
    for i := 0 to |alphabet|
      invariant entries == NfaCells(alphabet[..i], trans, s)
    {
      var nxt := Succ(trans, s, alphabet[i]);
      var cell;
      if nxt != {} {
        cell := if |nxt| > 1 then Join(SortedElems(nxt), ",") else SortedElems(nxt)[0];
      } else {
        cell := PhiCell;
      }
      assert cell == NfaCell(trans, s, alphabet[i]);
      NfaCellsSnoc(alphabet, trans, s, i);
      entries := entries + [cell];
    }
    assert alphabet[..|alphabet|] == alphabet;
  }

  lemma NfaCellsSnoc(alphabet: seq<Symbol>, trans: Relation, s: State, i: nat)
    requires i < |alphabet|
    ensures NfaCells(alphabet[..i + 1], trans, s) == NfaCells(alphabet[..i], trans, s) + [NfaCell(trans, s, alphabet[i])]
  {
    var front, next := alphabet[..i], alphabet[..i + 1];
    assert forall k | 0 <= k < i :: next[k] == front[k];
  }

  /** The body of the loop over states at NFA_DFA.py:95-107: one row line. */
  method NfaRowText(alphabet: seq<Symbol>, trans: Relation, start: State, finals: set<State>, s: State)
    returns (row: string)
    ensures row == NfaRow(alphabet, trans, start, finals, s)
  {
    var rowLabel := s;
    if s == start {
      rowLabel := Input.Arrow + rowLabel;
    }
    if s in finals {
      rowLabel := rowLabel + "*";
    }
    var entries := NfaEntries(alphabet, trans, s);
    row := rowLabel + " & " + Join(entries, " & ") + BreakThenHline;
  }

  /** The loop over states at NFA_DFA.py:95-107: one more row line per state. */
  method AppendNfaRows(latex0: string, states: seq<State>, alphabet: seq<Symbol>, trans: Relation, start: State,
                       finals: set<State>) returns (latex: string)
    ensures latex == latex0 + Concat(NfaRows(states, alphabet, trans, start, finals))
  {
    latex := latex0;
    ghost var rows := NfaRows(states, alphabet, trans, start, finals);
    for i := 0 to |states|
      invariant latex == latex0 + Concat(rows[..i])
    {
      var row := NfaRowText(alphabet, trans, start, finals, states[i]);
      assert row == rows[i];
      AppendLine(latex0, rows, i);
      latex := latex + row;
    }
    assert rows[..|states|] == rows;
  }

  /** NFA_DFA.py:88-113. */
  method NfaToLatex(states: seq<State>, alphabet: seq<Symbol>, trans: Relation, start: State,
                    finals: set<State>, caption: string) returns (latex: string)
    ensures latex == NfaTable(states, alphabet, trans, start, finals, caption)
  {
    latex := Begin;
    latex := latex + "    \\centering\n";
    latex := latex + "    \\begin{tabular}{|" + Columns(|alphabet| + 1) + "}\n";
    latex := latex + "    \\hline\n";
    ghost var preamble := latex;
    latex := latex + "State & " + Join(HeaderCells(alphabet, Input.UiEpsilon), " & ") + BreakThenHline;
    LineAppended(preamble, "State & ", "State", HeaderCells(alphabet, Input.UiEpsilon), BreakThenHline);
    latex := AppendNfaRows(latex, states, alphabet, trans, start, finals);
    ghost var body := latex;
    latex := latex + "    \\end{tabular}\n";
    latex := latex + "    \\caption{" + caption + "}\n";
    latex := latex + End;
    ClosingAppended(body, caption);
  }

  /**
   * A move that leads somewhere shows the same destinations as latex.py's
   * cell, the list sorted and `,`-separated; one that leads nowhere shows
   * `$\phi$` where latex.py leaves the cell empty.
   */
  lemma NfaCellAgrees(trans: Relation, s: State, a: Symbol)
    ensures Succ(trans, s, a) != {} ==>
      NfaCell(trans, s, a) == Join(SortedElems(Succ(trans, s, a)), ",") == LatexTables.NfaCell(trans, s, a)
    ensures Succ(trans, s, a) == {} ==> NfaCell(trans, s, a) == PhiCell
    ensures (s, a) !in trans ==> LatexTables.NfaCell(trans, s, a) == ""
  {
    var nxt := Succ(trans, s, a);
    if nxt != {} && |nxt| <= 1 {
      assert |SortedElems(nxt)| == 1;
    }
  }

  /** Every line of the dashboard's NFA table, header and rows, ends with a LaTeX row break. */
  lemma NfaLinesBreak(states: seq<State>, alphabet: seq<Symbol>, trans: Relation, start: State, finals: set<State>)
    ensures EndsWith(NfaHeader(alphabet), BreakThenHline)
    ensures forall i | 0 <= i < |states| ::
      EndsWith(NfaRows(states, alphabet, trans, start, finals)[i], BreakThenHline)
  {
    LineEnd("State", HeaderCells(alphabet, Input.UiEpsilon), BreakThenHline);
    forall i | 0 <= i < |states|
      ensures EndsWith(NfaRows(states, alphabet, trans, start, finals)[i], BreakThenHline)
    {
      var s := states[i];
      LineEnd(Label(s, s == start, s in finals), NfaCells(alphabet, trans, s), BreakThenHline);
    }
  }

  // ---------------------------------------------------------------------------
  // dfa_to_latex (NFA_DFA.py:115-147)

  /** NFA_DFA.py:124: a frozenset state is its sorted members, `, `-separated; a string is itself. */
  function StateText(S: Value): string
    requires Hashable(S)
  {
    if S.Frozen? then Join(SortedElems(S.names), ", ") else S.text
  }

  /** `str(x) for x in t` for a string `t`: its characters, one string each. */
  function Chars(t: string): (r: seq<string>)
    ensures |r| == |t|
    ensures forall k | 0 <= k < |t| :: r[k] == [t[k]]
  {
    seq(|t|, k requires 0 <= k < |t| => [t[k]])
  }

  /**
   * NFA_DFA.py:136-138, a destination once a set holding one frozenset is
   * unwrapped: the `str` of its members, sorted, `, `-separated. Iterating a
   * string yields its characters, so as written a destination that is a state
   * name is listed character by character; corrected it is the name.
   */
  function Listing(e: Edition, v: Value): string {
    match v
    case Text(t) => if e == AsWritten then Join(SortSeq(Chars(t)), ", ") else t
    case Frozen(n) => Join(SortedElems(n), ", ")
    case Plain(n) => Join(SortedElems(n), ", ")
    case Wrapped(n) => Join(SortedElems(n), ", ")
  }

  /** NFA_DFA.py:133-141: a missing or empty destination shows `$\phi$`. */
  function DestCell(e: Edition, trans: ValueRelation, S: Value, a: Symbol): (r: string)
    ensures (S, a) !in trans ==> r == PhiCell
    ensures (S, a) in trans && !Truthy(trans[(S, a)]) ==> r == PhiCell
  {
    match Get(trans, S, a)
    case None => PhiCell
    case Some(v) => if Truthy(v) then Listing(e, v) else PhiCell
  }

  /** One cell per symbol of `symbols`, in order. */
  function Cells(e: Edition, symbols: seq<Symbol>, trans: ValueRelation, S: Value): (r: seq<string>)
    ensures |r| == |symbols|
  {
    seq(|symbols|, k requires 0 <= k < |symbols| => DestCell(e, trans, S, symbols[k]))
  }

  /** NFA_DFA.py:130-131: the cells of a row skip the manual form's empty-move symbol. */
  function DfaCells(e: Edition, alphabet: seq<Symbol>, trans: ValueRelation, S: Value): seq<string> {
    Cells(e, Without(alphabet, Input.UiEpsilon), trans, S)
  }

  function DfaRow(e: Edition, alphabet: seq<Symbol>, trans: ValueRelation, start: Value, finals: set<Value>,
                  S: Value): string
    requires Hashable(S)
  {
    Line(Label(StateText(S), S == start, S in finals), DfaCells(e, alphabet, trans, S), RowEnd(e))
  }

  function DfaRows(e: Edition, states: seq<Value>, alphabet: seq<Symbol>, trans: ValueRelation, start: Value,
                   finals: set<Value>): (r: seq<string>)
    requires AllHashable(states)
    ensures |r| == |states|
  {
    seq(|states|, i requires 0 <= i < |states| => DfaRow(e, alphabet, trans, start, finals, states[i]))
  }

  /** NFA_DFA.py:120-121: the header lists the symbols but the empty-move one, and ends with a row break. */
  function DfaHeader(alphabet: seq<Symbol>): string {
    Line("State", Without(alphabet, Input.UiEpsilon), BreakThenHline)
  }

  /** The table the dashboard's `dfa_to_latex` returns. */
  function DfaTable(e: Edition, states: seq<Value>, alphabet: seq<Symbol>, trans: ValueRelation, start: Value,
                    finals: set<Value>, caption: string): string
    requires AllHashable(states)
  {
    Table(|alphabet| + 1, DfaHeader(alphabet), DfaRows(e, states, alphabet, trans, start, finals), caption)
  }

  /** One more symbol adds its cell at the end. */
  lemma CellsSnoc(e: Edition, symbols: seq<Symbol>, a: Symbol, trans: ValueRelation, S: Value)
    ensures Cells(e, symbols + [a], trans, S) == Cells(e, symbols, trans, S) + [DestCell(e, trans, S, a)]
  {
    var longer := symbols + [a];
    assert forall k | 0 <= k < |symbols| :: longer[k] == symbols[k];
  }

  /** The inner loop at NFA_DFA.py:129-141: one cell per symbol, the empty-move symbol skipped. */
  method DfaEntries(alphabet: seq<Symbol>, trans: ValueRelation, S: Value) returns (entries: seq<string>)
    ensures entries == DfaCells(AsWritten, alphabet, trans, S)
  {
    entries := [];
    for i := 0 to |alphabet|
      invariant entries == DfaCells(AsWritten, alphabet[..i], trans, S)
    {
      var a := alphabet[i];
      assert alphabet[..i + 1] == alphabet[..i] + [a];
      WithoutSnoc(alphabet[..i], a, Input.UiEpsilon);
      if a == Input.UiEpsilon {
        continue;
      }
      var nxt := Get(trans, S, a);
      var cell;
      if nxt.Some? && Truthy(nxt.value) {
        var v := nxt.value;
        if v.Wrapped? {
          v := Frozen(v.inner);
        }
        cell := Listing(AsWritten, v);
      } else {
        cell := PhiCell;
      }
      assert cell == DestCell(AsWritten, trans, S, a);
      CellsSnoc(AsWritten, Without(alphabet[..i], Input.UiEpsilon), a, trans, S);
      entries := entries + [cell];
    }
    assert alphabet[..|alphabet|] == alphabet;
  }

  /** The body of the loop over states at NFA_DFA.py:123-142: one row line. */
  method DfaRowText(alphabet: seq<Symbol>, trans: ValueRelation, start: Value, finals: set<Value>, S: Value)
    returns (row: string)
    requires Hashable(S)
    ensures row == DfaRow(AsWritten, alphabet, trans, start, finals, S)
  {
    var stateLabel := StateText(S);
    if S == start {
      stateLabel := Input.Arrow + stateLabel;
    }
    if S in finals {
      stateLabel := stateLabel + "*";
    }
    var entries := DfaEntries(alphabet, trans, S);
    row := stateLabel + " & " + Join(entries, " & ") + SpaceThenHline;
  }

  /** The loop over states at NFA_DFA.py:123-142: one more row line per state. */
  method AppendDfaRows(latex0: string, states: seq<Value>, alphabet: seq<Symbol>, trans: ValueRelation,
                       start: Value, finals: set<Value>) returns (latex: string)
    requires AllHashable(states)
    ensures latex == latex0 + Concat(DfaRows(AsWritten, states, alphabet, trans, start, finals))
  {
    latex := latex0;
    ghost var rows := DfaRows(AsWritten, states, alphabet, trans, start, finals);
    for i := 0 to |states|
      invariant latex == latex0 + Concat(rows[..i])
    {
      var row := DfaRowText(alphabet, trans, start, finals, states[i]);
      assert row == rows[i];
      AppendLine(latex0, rows, i);
      latex := latex + row;
    }
    assert rows[..|states|] == rows;
  }

  /**
   * NFA_DFA.py:115-147. States must be hashable: they key the dictionary and
   * are looked up in the set of final states.
   */
  method DfaToLatex(states: seq<Value>, alphabet: seq<Symbol>, trans: ValueRelation, start: Value,
                    finals: set<Value>, caption: string) returns (latex: string)
    requires AllHashable(states)
    ensures latex == DfaTable(AsWritten, states, alphabet, trans, start, finals, caption)
  {
    latex := Begin;
    latex := latex + "    \\centering\n";
    latex := latex + "    \\begin{tabular}{|" + Columns(|alphabet| + 1) + "}\n";
    latex := latex + "    \\hline\n";
    var headerSymbols := Without(alphabet, Input.UiEpsilon);
    ghost var preamble := latex;
    latex := latex + "State & " + Join(headerSymbols, " & ") + BreakThenHline;
    LineAppended(preamble, "State & ", "State", headerSymbols, BreakThenHline);
    latex := AppendDfaRows(latex, states, alphabet, trans, start, finals);
    ghost var body := latex;
    latex := latex + "    \\end{tabular}\n";
    latex := latex + "    \\caption{" + caption + "}\n";
    latex := latex + End;
    ClosingAppended(body, caption);
  }

  /** Single characters joined by `, ` take three places each but for the last. */
  lemma {:induction false} JoinUnits(xs: seq<string>)
    requires xs != [] && forall k | 0 <= k < |xs| :: |xs[k]| == 1
    ensures |Join(xs, ", ")| == 3 * |xs| - 2
  {
    if |xs| > 1 {
      JoinUnits(xs[1..]);
    }
  }

  /**
   * As written, a move to a state named by a string of two or more
   * characters (such as the label `minimize_dfa` gives a block of several
   * states, core.py:116-119) shows a cell that is not that state's name.
   */
  lemma LabelDestinationScrambled(trans: ValueRelation, S: Value, a: Symbol)
    requires (S, a) in trans && trans[(S, a)].Text? && |trans[(S, a)].text| >= 2
    ensures DestCell(AsWritten, trans, S, a) != StateText(trans[(S, a)])
  {
    var t := trans[(S, a)].text;
    var xs := SortSeq(Chars(t));
    assert |xs| == |t| by {
      assert |multiset(xs)| == |multiset(Chars(t))|;
    }
    forall k | 0 <= k < |xs| ensures |xs[k]| == 1 {
      assert xs[k] in multiset(Chars(t));
    }
    JoinUnits(xs);
  }

  /**
   * Corrected, every destination cell of a move that leads somewhere is the
   * row head of the state it leads to (a set holding one frozenset read as
   * that frozenset).
   */
  lemma CorrectedDestNamesRow(trans: ValueRelation, S: Value, a: Symbol)
    requires (S, a) in trans && Truthy(trans[(S, a)])
    requires Hashable(trans[(S, a)]) || trans[(S, a)].Wrapped?
    ensures var v := trans[(S, a)];
      DestCell(Corrected, trans, S, a) == StateText(if v.Wrapped? then Frozen(v.inner) else v)
  {
  }

  /** The two readings differ only on destinations that are strings. */
  lemma EditionsAgreeOffStrings(trans: ValueRelation, S: Value, a: Symbol)
    requires (S, a) in trans ==> !trans[(S, a)].Text?
    ensures DestCell(AsWritten, trans, S, a) == DestCell(Corrected, trans, S, a)
  {
  }

  /**
   * As written, the header of the DFA table ends with a LaTeX row break but no
   * row does: each ends with a control space before `\hline`.
   */
  lemma DfaRowsLackBreak(states: seq<Value>, alphabet: seq<Symbol>, trans: ValueRelation, start: Value,
                         finals: set<Value>)
    requires AllHashable(states)
    ensures EndsWith(DfaHeader(alphabet), BreakThenHline)
    ensures forall i | 0 <= i < |states| ::
      !EndsWith(DfaRows(AsWritten, states, alphabet, trans, start, finals)[i], BreakThenHline)
  {
    LineEnd("State", Without(alphabet, Input.UiEpsilon), BreakThenHline);
    forall i | 0 <= i < |states|
      ensures !EndsWith(DfaRows(AsWritten, states, alphabet, trans, start, finals)[i], BreakThenHline)
    {
      var S := states[i];
      LineEnd(Label(StateText(S), S == start, S in finals), DfaCells(AsWritten, alphabet, trans, S), SpaceThenHline);
    }
  }

  /** Corrected, every row of the DFA table ends with a LaTeX row break, as the header does. */
  lemma DfaRowsBreak(states: seq<Value>, alphabet: seq<Symbol>, trans: ValueRelation, start: Value,
                     finals: set<Value>)
    requires AllHashable(states)
    ensures forall i | 0 <= i < |states| ::
      EndsWith(DfaRows(Corrected, states, alphabet, trans, start, finals)[i], BreakThenHline)
  {
    forall i | 0 <= i < |states|
      ensures EndsWith(DfaRows(Corrected, states, alphabet, trans, start, finals)[i], BreakThenHline)
    {
      var S := states[i];
      LineEnd(Label(StateText(S), S == start, S in finals), DfaCells(Corrected, alphabet, trans, S), BreakThenHline);
    }
  }
}
