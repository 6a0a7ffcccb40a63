/**
 * What the LaTeX table builders of latex.py and NFA_DFA.py have in common:
 * the lines around the tabular, the header and row lines, and the Python
 * values that turn up as states and as transition destinations.
 */
module LatexFrame {
  import opened Automata
  import opened Strings

  /**
   * A Python value used as a DFA state or destination: a string, a frozenset
   * of names, a set of names, or a set whose only element is a frozenset of
   * names.
   */
  datatype Value =
    | Text(text: string)
    | Frozen(names: set<string>)
    | Plain(names: set<string>)
    | Wrapped(inner: set<string>)

  /** Python truthiness: empty strings and empty sets are false. */
  predicate Truthy(v: Value) {
    match v
    case Text(t) => t != []
    case Frozen(n) => n != {}
    case Plain(n) => n != {}
    case Wrapped(_) => true
  }

  /** A value that can be hashed, and so can be a state: a string or a frozenset. */
  predicate Hashable(v: Value) {
    v.Text? || v.Frozen?
  }

  /** Every state of a list can key a dictionary. */
  predicate AllHashable(states: seq<Value>) {
    forall i | 0 <= i < |states| :: Hashable(states[i])
  }

  /** A table of DFA moves keyed by Python values. */
  type ValueRelation = map<(Value, Symbol), Value>

  /** `transitions.get((s, a))`. */
  function Get(trans: ValueRelation, s: Value, a: Symbol): Option<Value> {
    if (s, a) in trans then Some(trans[(s, a)]) else None
  }

  // ---------------------------------------------------------------------------
  // Lines of a table

  const Begin: string := "\\begin{table}[H]\n"
  const End: string := "\\end{table}"

  /** Python's `" \\ \\hline\n"`: a backslash and a space, LaTeX's control space, before `\hline`. */
  const SpaceThenHline: string := " \\ \\hline\n"

  /** Python's `" \\\\ \\hline\n"`: LaTeX's row break `\\` before `\hline`. */
  const BreakThenHline: string := " \\\\ \\hline\n"

  /**
   * Which reading of a builder: the code as written, or with its slips put
   * right (a LaTeX row break at the end of every line, a destination named as
   * the row it leads to).
   */
  datatype Edition = AsWritten | Corrected

  /** The end of a row line: as written a control space, corrected a row break. */
  function RowEnd(e: Edition): string {
    if e == AsWritten then SpaceThenHline else BreakThenHline
  }

  /** `"c|" * n`: `n` centred columns, each followed by a rule. */
  function Columns(n: nat): (r: string)
    ensures |r| == 2 * n
    ensures forall k | 0 <= k < |r| :: r[k] == if k % 2 == 0 then 'c' else '|'
  {
    if n == 0 then [] else Columns(n - 1) + "c|"
  }

  /** The lines before the header, for a tabular of `columns` columns. */
  function Preamble(columns: nat): string {
    Begin + "    \\centering\n" + "    \\begin{tabular}{|" + Columns(columns) + "}\n" + "    \\hline\n"
  }

  /** The lines after the last row. */
  function Closing(caption: string): string {
    "    \\end{tabular}\n" + "    \\caption{" + caption + "}\n" + End
  }

  /** A header or row line: its head, then its cells, all separated by ` & `. */
  function Line(head: string, cells: seq<string>, rowEnd: string): string {
    head + " & " + Join(cells, " & ") + rowEnd
  }

  /** The header cell of symbol `a`; the empty-move symbol is typeset as `$\epsilon$`. */
  function HeaderCell(a: Symbol, eps: Symbol): (r: string)
    ensures a == eps ==> r == "$\\epsilon$"
    ensures a != eps ==> r == a
  {
    if a == eps then "$\\epsilon$" else a
  }

  /** One header cell per symbol, in input order. */
  function HeaderCells(alphabet: seq<Symbol>, eps: Symbol): (r: seq<string>)
    ensures |r| == |alphabet|
  {
    seq(|alphabet|, k requires 0 <= k < |alphabet| => HeaderCell(alphabet[k], eps))
  }

  /** The lines run together in order. */
  function Concat(lines: seq<string>): string {
    if lines == [] then [] else Concat(lines[..|lines| - 1]) + lines[|lines| - 1]
  }

  /** A whole table: the preamble, the header line, the row lines and the closing lines. */
  function Table(columns: nat, header: string, rows: seq<string>, caption: string): string {
    Preamble(columns) + header + Concat(rows) + Closing(caption)
  }

  /** A string made of three parts holds its middle part. */
  lemma HoldsMiddle(x: string, p: string, y: string)
    ensures Contains(x + p + y, p)
  {
    assert OccursAt(p, x + p + y, |x|);
  }

  /** Every table begins with `\begin{table}[H]` and ends with `\end{table}`. */
  lemma TableEnds(columns: nat, header: string, rows: seq<string>, caption: string)
    ensures StartsWith(Table(columns, header, rows, caption), Begin)
    ensures EndsWith(Table(columns, header, rows, caption), End)
  {
    var rest := "    \\centering\n" + "    \\begin{tabular}{|" + Columns(columns) + "}\n" + "    \\hline\n"
      + header + Concat(rows) + Closing(caption);
    assert Table(columns, header, rows, caption) == Begin + rest;
    var front := Preamble(columns) + header + Concat(rows) + "    \\end{tabular}\n" + "    \\caption{" + caption + "}\n";
    assert Table(columns, header, rows, caption) == front + End;
  }

  /** Every table declares `columns` columns. */
  lemma TableColumns(columns: nat, header: string, rows: seq<string>, caption: string)
    ensures Contains(Table(columns, header, rows, caption), "{|" + Columns(columns) + "}\n")
  {
    var spec := "{|" + Columns(columns) + "}\n";
    var before := Begin + "    \\centering\n" + "    \\begin{tabular}";
    var after := "    \\hline\n" + header + Concat(rows) + Closing(caption);
    assert Preamble(columns) + header == before + spec + "    \\hline\n" + header;
    assert Table(columns, header, rows, caption) == before + spec + after;
    HoldsMiddle(before, spec, after);
  }

  /** Every table holds its caption. */
  lemma TableCaption(columns: nat, header: string, rows: seq<string>, caption: string)
    ensures Contains(Table(columns, header, rows, caption), "\\caption{" + caption + "}")
  {
    var caption' := "\\caption{" + caption + "}";
    var front := Preamble(columns) + header + Concat(rows) + "    \\end{tabular}\n" + "    ";
    assert Closing(caption) == "    \\end{tabular}\n" + "    " + caption' + ("\n" + End);
    assert Table(columns, header, rows, caption) == front + caption' + ("\n" + End);
    HoldsMiddle(front, caption', "\n" + End);
  }

  /** A line ends with its `rowEnd`; one ended by a control space does not end with a row break. */
  lemma LineEnd(head: string, cells: seq<string>, rowEnd: string)
    ensures EndsWith(Line(head, cells, rowEnd), rowEnd)
    ensures rowEnd == SpaceThenHline ==> !EndsWith(Line(head, cells, rowEnd), BreakThenHline)
  {
    var l := Line(head, cells, rowEnd);
    var body := head + " & " + Join(cells, " & ");
    assert l == body + rowEnd;
    assert l[|l| - |rowEnd|..] == rowEnd;
    if rowEnd == SpaceThenHline {
      assert |body| >= 1;
      assert l[|l| - |BreakThenHline| + 1] == ' ';
    }
  }

  /** A line starts with its head and the first ` & `. */
  lemma LineStarts(head: string, cells: seq<string>, rowEnd: string)
    ensures StartsWith(Line(head, cells, rowEnd), head + " & ")
  {
    var p, rest := head + " & ", Join(cells, " & ") + rowEnd;
    assert Line(head, cells, rowEnd) == p + rest;
    assert (p + rest)[..|p|] == p;
  }

  /** Appending a line's head, ` & `, its cells and its end, one after the other, appends the line. */
  lemma LineAppended(text: string, headAmp: string, head: string, cells: seq<string>, rowEnd: string)
    requires headAmp == head + " & "
    ensures text + headAmp + Join(cells, " & ") + rowEnd == text + Line(head, cells, rowEnd)
  {
    Regroup4(text, head, " & ", Join(cells, " & "), rowEnd);
  }

  /** Appending the closing lines one after the other appends `Closing(caption)`. */
  lemma ClosingAppended(text: string, caption: string)
    ensures text + "    \\end{tabular}\n" + "    \\caption{" + caption + "}\n" + End == text + Closing(caption)
  {
    Regroup5(text, "    \\end{tabular}\n", "    \\caption{", caption, "}\n", End);
  }

  lemma Regroup4(t: string, a: string, b: string, c: string, d: string)
    ensures t + (a + b) + c + d == t + (a + b + c + d)
  {
  }

  lemma Regroup5(t: string, a: string, b: string, c: string, d: string, e: string)
    ensures t + a + b + c + d + e == t + (a + b + c + d + e)
  {
  }

  /** Each step of a `+=` loop adds one more line. */
  lemma ConcatSnoc(lines: seq<string>, i: nat)
    requires i < |lines|
    ensures Concat(lines[..i + 1]) == Concat(lines[..i]) + lines[i]
  {
    assert lines[..i + 1][..i] == lines[..i];
  }

  /** Text followed by the first `i` lines, then line `i`, is the text followed by the first `i + 1` lines. */
  lemma AppendLine(text: string, lines: seq<string>, i: nat)
    requires i < |lines|
    ensures text + Concat(lines[..i]) + lines[i] == text + Concat(lines[..i + 1])
  {
    ConcatSnoc(lines, i);
  }
}
