/**
 * The table serialisers of latex.py. NFA_DFA.py imports them and then
 * defines builders of the same names, so the dashboard runs its own copies
 * (module UiLatex); these are modelled as latex.py writes them. Each builder
 * adds to the `latex` string line by line, and is proved to produce the
 * table its specification function describes.
 */
module LatexTables {
  import opened Automata
  import opened Strings
  import opened LatexFrame
  import Input

  /**
   * The head of a state's row (latex.py:13-17, 37-40): the start state gets
   * `$\rightarrow$ ` in front, and a final state then gets `*` in front of
   * that.
   */
  function Head(name: string, isStart: bool, isFinal: bool): (r: string)
    ensures EndsWith(r, name)
    ensures |r| == |name| + (if isStart then 14 else 0) + (if isFinal then 1 else 0)
    ensures isFinal ==> StartsWith(r, "*")
    ensures isStart && isFinal ==> StartsWith(r, "*$\\rightarrow$ ")
    ensures isStart && !isFinal ==> StartsWith(r, "$\\rightarrow$ ")
  {
    var marked := if isStart then "$\\rightarrow$ " + name else name;
    if isFinal then "*" + marked else marked
  }

  // ---------------------------------------------------------------------------
  // df_to_latex_matrix_phi (latex.py:6-25)

  /** latex.py:19: an absent move leaves the cell empty, a present one lists its destinations sorted, `,`-separated. */
  function NfaCell(trans: Relation, s: State, a: Symbol): string {
    if (s, a) in trans then Join(SortedElems(trans[(s, a)]), ",") else ""
  }

  function NfaCells(alphabet: seq<Symbol>, trans: Relation, s: State): (r: seq<string>)
    ensures |r| == |alphabet|
  {
    seq(|alphabet|, k requires 0 <= k < |alphabet| => NfaCell(trans, s, alphabet[k]))
  }

  function NfaRow(e: Edition, alphabet: seq<Symbol>, trans: Relation, start: State, finals: set<State>, s: State): string {
    Line(Head(s, s == start, s in finals), NfaCells(alphabet, trans, s), RowEnd(e))
  }

  /** One row line per state, in the order of `states`. */
  function NfaRows(e: Edition, states: seq<State>, alphabet: seq<Symbol>, trans: Relation, start: State,
                   finals: set<State>): (r: seq<string>)
    ensures |r| == |states|
  {
    seq(|states|, i requires 0 <= i < |states| => NfaRow(e, alphabet, trans, start, finals, states[i]))
  }

  function NfaHeader(e: Edition, alphabet: seq<Symbol>, eps: Symbol): string {
    Line("State", HeaderCells(alphabet, eps), RowEnd(e))
  }

  /** The table `df_to_latex_matrix_phi` returns: one column per symbol, plus the state column. */
  function NfaTable(e: Edition, states: seq<State>, alphabet: seq<Symbol>, trans: Relation, start: State,
                    finals: set<State>, caption: string, eps: Symbol): string {
    Table(|alphabet| + 1, NfaHeader(e, alphabet, eps), NfaRows(e, states, alphabet, trans, start, finals), caption)
  }

  /** The body of the loop over states at latex.py:12-21: one row line. */
  method NfaRowText(alphabet: seq<Symbol>, trans: Relation, start: State, finals: set<State>, s: State)
    returns (row: string)
    ensures row == NfaRow(AsWritten, alphabet, trans, start, finals, s)
  {
    row := s;
    if s == start {
      row := "$\\rightarrow$ " + row;
    }
    if s in finals {
      row := "*" + row;
    }
    row := row + " & ";
    row := row + Join(NfaCells(alphabet, trans, s), " & ");
    row := row + SpaceThenHline;
  }

  /** The loop over states at latex.py:12-21: one more row line per state. */
  method AppendNfaRows(latex0: string, states: seq<State>, alphabet: seq<Symbol>, trans: Relation, start: State,
                       finals: set<State>) returns (latex: string)
    ensures latex == latex0 + Concat(NfaRows(AsWritten, states, alphabet, trans, start, finals))
  {
    latex := latex0;
    ghost var rows := NfaRows(AsWritten, states, alphabet, trans, start, finals);
    for i := 0 to |states|
      invariant latex == latex0 + Concat(rows[..i])
    {
      var row := NfaRowText(alphabet, trans, start, finals, states[i]);
      assert row == rows[i];
      AppendLine(latex0, rows, i);
      latex := latex + row;
    }
    assert rows[..|states|] == rows;
  }

  /** latex.py:6-25, with `eps` the symbol typeset as `$\epsilon$` (latex.py tests for `"ε"`). */
  method NfaToLatex(states: seq<State>, alphabet: seq<Symbol>, trans: Relation, start: State,
                    finals: set<State>, caption: string, eps: Symbol) returns (latex: string)
    ensures latex == NfaTable(AsWritten, states, alphabet, trans, start, finals, caption, eps)
  {
    latex := Begin;
    latex := latex + "    \\centering\n";
    latex := latex + "    \\begin{tabular}{|" + Columns(|alphabet| + 1) + "}\n";
    latex := latex + "    \\hline\n";
    ghost var preamble := latex;
    latex := latex + "State & " + Join(HeaderCells(alphabet, eps), " & ") + SpaceThenHline;
    LineAppended(preamble, "State & ", "State", HeaderCells(alphabet, eps), SpaceThenHline);
    latex := AppendNfaRows(latex, states, alphabet, trans, start, finals);
    ghost var body := latex;
    latex := latex + "    \\end{tabular}\n";
    latex := latex + "    \\caption{" + caption + "}\n";
    latex := latex + End;
    ClosingAppended(body, caption);
  }

  /**
   * A cell reads back, through the upload parser, as the move it shows: its
   * destination set, or no move for an empty cell, when the names are plain
   * and the list does not happen to spell the phi marker or `nan`.
   */
  lemma NfaCellReadsBack(trans: Relation, s: State, a: Symbol)
    requires (s, a) in trans ==> trans[(s, a)] != {}
    requires (s, a) in trans ==> forall t | t in trans[(s, a)] :: t != "" && Stripped(t) && ',' !in t
    requires NfaCell(trans, s, a) != Input.Phi && !IsNanText(NfaCell(trans, s, a))
    ensures Input.ParseCell(NfaCell(trans, s, a)) == Input.Lookup(trans, s, a)
  {
    if (s, a) in trans {
      var xs := SortedElems(trans[(s, a)]);
      assert xs != [] by {
        var t :| t in trans[(s, a)];
        assert t in xs;
      }
      forall i | 0 <= i < |xs| ensures xs[i] != "" && Stripped(xs[i]) && ',' !in xs[i] {
        assert xs[i] in trans[(s, a)];
      }
      Input.ParseCellOfJoin(xs);
      assert Elems(xs) == trans[(s, a)];
    } else {
      assert Strip("") == "";
    }
  }

  /** Each state has its row, in the order given, headed by its name and markers. */
  lemma NfaRowsInOrder(e: Edition, states: seq<State>, alphabet: seq<Symbol>, trans: Relation, start: State,
                       finals: set<State>)
    ensures |NfaRows(e, states, alphabet, trans, start, finals)| == |states|
    ensures forall i | 0 <= i < |states| ::
      StartsWith(NfaRows(e, states, alphabet, trans, start, finals)[i],
                 Head(states[i], states[i] == start, states[i] in finals) + " & ")
  {
    forall i | 0 <= i < |states|
      ensures StartsWith(NfaRows(e, states, alphabet, trans, start, finals)[i],
                         Head(states[i], states[i] == start, states[i] in finals) + " & ")
    {
      var s := states[i];
      LineStarts(Head(s, s == start, s in finals), NfaCells(alphabet, trans, s), RowEnd(e));
    }
  }

  /** As written, no line of the NFA table, header or row, ends with a LaTeX row break. */
  lemma NfaLinesLackBreak(states: seq<State>, alphabet: seq<Symbol>, trans: Relation, start: State,
                          finals: set<State>, eps: Symbol)
    ensures !EndsWith(NfaHeader(AsWritten, alphabet, eps), BreakThenHline)
    ensures forall i | 0 <= i < |states| ::
      !EndsWith(NfaRows(AsWritten, states, alphabet, trans, start, finals)[i], BreakThenHline)
  {
    LineEnd("State", HeaderCells(alphabet, eps), SpaceThenHline);
    forall i | 0 <= i < |states|
      ensures !EndsWith(NfaRows(AsWritten, states, alphabet, trans, start, finals)[i], BreakThenHline)
    {
      var s := states[i];
      LineEnd(Head(s, s == start, s in finals), NfaCells(alphabet, trans, s), SpaceThenHline);
    }
  }

  /** Corrected, every line of the NFA table ends with a LaTeX row break. */
  lemma NfaLinesBreak(states: seq<State>, alphabet: seq<Symbol>, trans: Relation, start: State,
                      finals: set<State>, eps: Symbol)
    ensures EndsWith(NfaHeader(Corrected, alphabet, eps), BreakThenHline)
    ensures forall i | 0 <= i < |states| ::
      EndsWith(NfaRows(Corrected, states, alphabet, trans, start, finals)[i], BreakThenHline)
  {
    LineEnd("State", HeaderCells(alphabet, eps), BreakThenHline);
    forall i | 0 <= i < |states|
      ensures EndsWith(NfaRows(Corrected, states, alphabet, trans, start, finals)[i], BreakThenHline)
    {
      var s := states[i];
      LineEnd(Head(s, s == start, s in finals), NfaCells(alphabet, trans, s), BreakThenHline);
    }
  }

  // ---------------------------------------------------------------------------
  // dfa_to_latex (latex.py:27-48)

  /** No destination is a set holding a frozenset, which `"".join` would reject. */
  predicate Joinable(trans: ValueRelation) {
    forall k | k in trans :: !trans[k].Wrapped?
  }

  /** latex.py:35: a frozenset state is its sorted members run together; a string is itself. */
  function DfaStateText(S: Value): string
    requires Hashable(S)
  {
    if S.Frozen? then Join(SortedElems(S.names), "") else S.text
  }

  /**
   * latex.py:42: a destination that is a `set` shows its sorted members run
   * together; any other value shows `str` of it, which for a frozenset is
   * CPython's `repr`, given here as `repr`; a missing one shows nothing.
   */
  function DfaCell(trans: ValueRelation, S: Value, a: Symbol, repr: Value -> string): (r: string)
    requires Joinable(trans)
    ensures (S, a) !in trans ==> r == ""
    ensures (S, a) in trans && trans[(S, a)].Text? ==> r == trans[(S, a)].text
  {
    match Get(trans, S, a)
    case None => ""
    case Some(Plain(n)) => Join(SortedElems(n), "")
    case Some(Text(t)) => t
    case Some(v) => repr(v)
  }

  /** The cells of a DFA row: one per symbol other than the empty-move symbol. */
  function DfaCells(alphabet: seq<Symbol>, eps: Symbol, trans: ValueRelation, S: Value, repr: Value -> string): (r: seq<string>)
    requires Joinable(trans)
    ensures |r| == |Without(alphabet, eps)|
  {
    var symbols := Without(alphabet, eps);
    seq(|symbols|, k requires 0 <= k < |symbols| => DfaCell(trans, S, symbols[k], repr))
  }

  function DfaRow(e: Edition, alphabet: seq<Symbol>, eps: Symbol, trans: ValueRelation, start: Value,
                  finals: set<Value>, S: Value, repr: Value -> string): string
    requires Joinable(trans) && Hashable(S)
  {
    Line(Head(DfaStateText(S), S == start, S in finals), DfaCells(alphabet, eps, trans, S, repr), RowEnd(e))
  }

  function DfaRows(e: Edition, states: seq<Value>, alphabet: seq<Symbol>, eps: Symbol, trans: ValueRelation,
                   start: Value, finals: set<Value>, repr: Value -> string): (r: seq<string>)
    requires Joinable(trans) && AllHashable(states)
    ensures |r| == |states|
  {
    seq(|states|, i requires 0 <= i < |states| => DfaRow(e, alphabet, eps, trans, start, finals, states[i], repr))
  }

  /** latex.py:32-33: the header lists the symbols other than the empty-move symbol, verbatim. */
  function DfaHeader(e: Edition, alphabet: seq<Symbol>, eps: Symbol): string {
    Line("State", Without(alphabet, eps), RowEnd(e))
  }

  /** The table `dfa_to_latex` returns; the column count still counts the empty-move symbol. */
  function DfaTable(e: Edition, states: seq<Value>, alphabet: seq<Symbol>, eps: Symbol, trans: ValueRelation,
                    start: Value, finals: set<Value>, caption: string, repr: Value -> string): string
    requires Joinable(trans) && AllHashable(states)
  {
    Table(|alphabet| + 1, DfaHeader(e, alphabet, eps), DfaRows(e, states, alphabet, eps, trans, start, finals, repr), caption)
  }

  /** The body of the loop over states at latex.py:34-44: one row line. */
  method DfaRowText(alphabet: seq<Symbol>, eps: Symbol, trans: ValueRelation, start: Value, finals: set<Value>,
                    S: Value, repr: Value -> string) returns (row: string)
    requires Joinable(trans) && Hashable(S)
    ensures row == DfaRow(AsWritten, alphabet, eps, trans, start, finals, S, repr)
  {
    row := DfaStateText(S);
    if S == start {
      row := "$\\rightarrow$ " + row;
    }
    if S in finals {
      row := "*" + row;
    }
    row := row + " & ";
    row := row + Join(DfaCells(alphabet, eps, trans, S, repr), " & ");
    row := row + SpaceThenHline;
  }

  /** The loop over states at latex.py:34-44: one more row line per state. */
  method AppendDfaRows(latex0: string, states: seq<Value>, alphabet: seq<Symbol>, eps: Symbol, trans: ValueRelation,
                       start: Value, finals: set<Value>, repr: Value -> string) returns (latex: string)
    requires Joinable(trans) && AllHashable(states)
    ensures latex == latex0 + Concat(DfaRows(AsWritten, states, alphabet, eps, trans, start, finals, repr))
  {
    latex := latex0;
    ghost var rows := DfaRows(AsWritten, states, alphabet, eps, trans, start, finals, repr);
    for i := 0 to |states|
      invariant latex == latex0 + Concat(rows[..i])
    {
      var row := DfaRowText(alphabet, eps, trans, start, finals, states[i], repr);
      assert row == rows[i];
      AppendLine(latex0, rows, i);
      latex := latex + row;
    }
    assert rows[..|states|] == rows;
  }

  /**
   * latex.py:27-48. States must be hashable (they key the dictionary) and no
   * destination may be a set holding a frozenset; otherwise Python raises.
   */
  method DfaToLatex(states: seq<Value>, alphabet: seq<Symbol>, trans: ValueRelation, start: Value,
                    finals: set<Value>, caption: string, eps: Symbol, repr: Value -> string) returns (latex: string)
    requires Joinable(trans) && AllHashable(states)
    ensures latex == DfaTable(AsWritten, states, alphabet, eps, trans, start, finals, caption, repr)
  {
    latex := Begin;
    latex := latex + "    \\centering\n";
    latex := latex + "    \\begin{tabular}{|" + Columns(|alphabet| + 1) + "}\n";
    latex := latex + "    \\hline\n";
    var headerSymbols := Without(alphabet, eps);
    ghost var preamble := latex;
    latex := latex + "State & " + Join(headerSymbols, " & ") + SpaceThenHline;
    LineAppended(preamble, "State & ", "State", headerSymbols, SpaceThenHline);
    latex := AppendDfaRows(latex, states, alphabet, eps, trans, start, finals, repr);
    ghost var body := latex;
    latex := latex + "    \\end{tabular}\n";
    latex := latex + "    \\caption{" + caption + "}\n";
    latex := latex + End;
    ClosingAppended(body, caption);
  }

  /** Without the empty-move symbol in it, the alphabet is left as it is. */
  lemma {:induction false} WithoutAbsent(alphabet: seq<Symbol>, eps: Symbol)
    requires eps !in alphabet
    ensures Without(alphabet, eps) == alphabet
  {
    if alphabet != [] {
      WithoutAbsent(alphabet[1..], eps);
      assert alphabet == [alphabet[0]] + alphabet[1..];
    }
  }

  /**
   * latex.py:30-33: the tabular declares one column per cell of a line
   * exactly when the alphabet has no empty-move symbol; with one, the lines
   * are short of the declared columns.
   */
  lemma DfaColumnsMatch(states: seq<Value>, alphabet: seq<Symbol>, eps: Symbol, trans: ValueRelation,
                        S: Value, repr: Value -> string)
    requires Joinable(trans)
    ensures |DfaCells(alphabet, eps, trans, S, repr)| + 1 == |alphabet| + 1 <==> eps !in alphabet
  {
    if eps !in alphabet {
      WithoutAbsent(alphabet, eps);
    }
  }

  /** As written, no line of the DFA table ends with a LaTeX row break. */
  lemma DfaLinesLackBreak(states: seq<Value>, alphabet: seq<Symbol>, eps: Symbol, trans: ValueRelation,
                          start: Value, finals: set<Value>, repr: Value -> string)
    requires Joinable(trans) && AllHashable(states)
    ensures !EndsWith(DfaHeader(AsWritten, alphabet, eps), BreakThenHline)
    ensures forall i | 0 <= i < |states| ::
      !EndsWith(DfaRows(AsWritten, states, alphabet, eps, trans, start, finals, repr)[i], BreakThenHline)
  {
    LineEnd("State", Without(alphabet, eps), SpaceThenHline);
    forall i | 0 <= i < |states|
      ensures !EndsWith(DfaRows(AsWritten, states, alphabet, eps, trans, start, finals, repr)[i], BreakThenHline)
    {
      var S := states[i];
      LineEnd(Head(DfaStateText(S), S == start, S in finals), DfaCells(alphabet, eps, trans, S, repr), SpaceThenHline);
    }
  }

  /** Corrected, every line of the DFA table ends with a LaTeX row break. */
  lemma DfaLinesBreak(states: seq<Value>, alphabet: seq<Symbol>, eps: Symbol, trans: ValueRelation,
                      start: Value, finals: set<Value>, repr: Value -> string)
    requires Joinable(trans) && AllHashable(states)
    ensures EndsWith(DfaHeader(Corrected, alphabet, eps), BreakThenHline)
    ensures forall i | 0 <= i < |states| ::
      EndsWith(DfaRows(Corrected, states, alphabet, eps, trans, start, finals, repr)[i], BreakThenHline)
  {
    LineEnd("State", Without(alphabet, eps), BreakThenHline);
    forall i | 0 <= i < |states|
      ensures EndsWith(DfaRows(Corrected, states, alphabet, eps, trans, start, finals, repr)[i], BreakThenHline)
    {
      var S := states[i];
      LineEnd(Head(DfaStateText(S), S == start, S in finals), DfaCells(alphabet, eps, trans, S, repr), BreakThenHline);
    }
  }
}
