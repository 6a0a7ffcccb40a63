/**
 * Python string helpers used by the converter's input side and its LaTeX
 * renderers: `str.strip`, `str.split(",")`, `str.join`, `str.replace(x, "")`,
 * substring tests, the case-insensitive "nan" test, code-point ordering of
 * strings with `sorted`, and `parse_list` (utils.py / core.py).
 */
module Strings {

  /** The characters Python's `str.isspace` accepts, so what `str.strip()` removes. */
  predicate IsSpace(c: char) {
    ('\t' <= c <= '\r') || ('\U{1c}' <= c <= ' ') || c == '\U{85}' || c == '\U{a0}'
    || c == '\U{1680}' || ('\U{2000}' <= c <= '\U{200a}') || c == '\U{2028}' || c == '\U{2029}'
    || c == '\U{202f}' || c == '\U{205f}' || c == '\U{3000}'
  }

  predicate AllSpace(s: string) {
    forall i | 0 <= i < |s| :: IsSpace(s[i])
  }

  /** No leading and no trailing whitespace. */
  predicate Stripped(s: string) {
    s == [] || (!IsSpace(s[0]) && !IsSpace(s[|s| - 1]))
  }

  function TrimLeft(s: string): (r: string)
    ensures |r| <= |s|
  {
    if s != [] && IsSpace(s[0]) then TrimLeft(s[1..]) else s
  }

  /** `TrimLeft` drops a leading run of whitespace and stops at the first other character. */
  lemma {:induction false} TrimLeftSpec(s: string)
    ensures TrimLeft(s) == s[|s| - |TrimLeft(s)|..]
    ensures AllSpace(s[..|s| - |TrimLeft(s)|])
    ensures TrimLeft(s) == [] || !IsSpace(TrimLeft(s)[0])
  {
    if s != [] && IsSpace(s[0]) {
      TrimLeftSpec(s[1..]);
      var k := |s| - |TrimLeft(s)|;
      forall i | 0 <= i < k ensures IsSpace(s[..k][i]) {
        if i > 0 { assert s[..k][i] == s[1..][..k - 1][i - 1]; }
      }
    }
  }

  function TrimRight(s: string): (r: string)
    ensures |r| <= |s|
  {
    if s != [] && IsSpace(s[|s| - 1]) then TrimRight(s[..|s| - 1]) else s
  }

  /** `TrimRight` drops a trailing run of whitespace and stops at the last other character. */
  lemma {:induction false} TrimRightSpec(s: string)
    ensures TrimRight(s) == s[..|TrimRight(s)|]
    ensures AllSpace(s[|TrimRight(s)|..])
    ensures TrimRight(s) == [] || !IsSpace(TrimRight(s)[|TrimRight(s)| - 1])
  {
    if s != [] && IsSpace(s[|s| - 1]) {
      var t := s[..|s| - 1];
      TrimRightSpec(t);
      var k := |TrimRight(s)|;
      assert t[..k] == s[..k];
      forall i | k <= i < |s| ensures IsSpace(s[i]) {
        if i < |s| - 1 { assert s[i] == t[k..][i - k]; }
      }
    }
  }

  /** Where `s.strip()` starts: the length of the leading whitespace run. */
  function StripOffset(s: string): (k: nat)
    ensures k <= |s|
  {
    |s| - |TrimLeft(s)|
  }

  /** `s.strip()`: `s` without its leading and trailing whitespace runs. */
  function Strip(s: string): (r: string)
    ensures Stripped(r) && |r| <= |s|
  {
    TrimLeftSpec(s);
    TrimRightSpec(TrimLeft(s));
    TrimRight(TrimLeft(s))
  }

  /** `s.strip()` is the part of `s` that follows its leading whitespace run. */
  lemma StripSlice(s: string)
    ensures StripOffset(s) + |Strip(s)| <= |s| && Strip(s) == s[StripOffset(s)..StripOffset(s) + |Strip(s)|]
  {
    var l := TrimLeft(s);
    var k := |s| - |l|;
    TrimLeftSpec(s);
    TrimRightSpec(l);
    assert l == s[k..];
    assert TrimRight(l) == l[..|TrimRight(l)|];
  }

  /** What `s.strip()` drops, before and after, is whitespace. */
  lemma StripSpaces(s: string)
    ensures StripOffset(s) + |Strip(s)| <= |s|
    ensures AllSpace(s[..StripOffset(s)]) && AllSpace(s[StripOffset(s) + |Strip(s)|..])
  {
    var l := TrimLeft(s);
    var k := |s| - |l|;
    var r := TrimRight(l);
    TrimLeftSpec(s);
    TrimRightSpec(l);
    assert AllSpace(s[..k]);
    assert AllSpace(l[|r|..]);
    assert l[|r|..] == s[k + |r|..];
  }

  /** `s.strip()` is empty exactly when `s` is all whitespace. */
  lemma StripEmpty(s: string)
    ensures Strip(s) == [] <==> AllSpace(s)
  {
    var l := TrimLeft(s);
    var k := |s| - |l|;
    var r := TrimRight(l);
    TrimLeftSpec(s);
    TrimRightSpec(l);
    if r == [] {
      assert l[|r|..] == l;
      assert l == [];
      assert s[..k] == s;
    } else {
      assert l != [] && !IsSpace(l[0]);
      assert l == s[k..];
      assert !IsSpace(s[k]);
    }
  }

  lemma {:induction false} StripOfStripped(s: string)
    requires Stripped(s)
    ensures Strip(s) == s
  {
    if s != [] {
      assert TrimLeft(s) == s;
      assert TrimRight(s) == s;
    }
  }

  /** Every character of `Strip(s)` occurs in `s`. */
  lemma {:induction false} StripChars(s: string, c: char)
    requires c in Strip(s)
    ensures c in s
  {
    var r, i := Strip(s), StripOffset(s);
    StripSlice(s);
    var k :| 0 <= k < |r| && r[k] == c;
    assert s[i + k] == r[k];
  }

  /** `str.join`: the pieces with `sep` between neighbours. */
  function Join(xs: seq<string>, sep: string): string {
    if xs == [] then []
    else if |xs| == 1 then xs[0]
    else xs[0] + sep + Join(xs[1..], sep)
  }

  /** A join of items whose first is non-empty is non-empty, and starts with that item's first character. */
  lemma {:induction false} JoinNonEmpty(xs: seq<string>, sep: string)
    requires xs != [] && xs[0] != []
    ensures Join(xs, sep) != [] && Join(xs, sep)[0] == xs[0][0]
  {
  }

  /** A join ends with the last character of its last item, when that is non-empty. */
  lemma {:induction false} JoinLast(xs: seq<string>, sep: string)
    requires xs != [] && xs[|xs| - 1] != []
    ensures Join(xs, sep) != [] && Join(xs, sep)[|Join(xs, sep)| - 1] == xs[|xs| - 1][|xs[|xs| - 1]| - 1]
    decreases |xs|
  {
    if |xs| > 1 {
      JoinLast(xs[1..], sep);
    }
  }

  /** Joining non-empty trimmed items yields a trimmed string. */
  lemma JoinStripped(xs: seq<string>, sep: char)
    requires xs != [] && forall i | 0 <= i < |xs| :: xs[i] != [] && Stripped(xs[i])
    ensures Stripped(Join(xs, [sep]))
  {
    JoinNonEmpty(xs, [sep]);
    JoinLast(xs, [sep]);
  }

  /** `str.split(sep)` with a one-character separator: every piece, empty ones included. */
  function Split(s: string, sep: char): (r: seq<string>)
    ensures |r| >= 1
  {
    if s == [] then [[]]
    else
      var t := Split(s[1..], sep);
      if s[0] == sep then [[]] + t else [[s[0]] + t[0]] + t[1..]
  }

  /** No piece of a split holds the separator. */
  lemma {:induction false} SplitPieces(s: string, sep: char)
    ensures forall i | 0 <= i < |Split(s, sep)| :: sep !in Split(s, sep)[i]
  {
    if s != [] {
      SplitPieces(s[1..], sep);
      var t := Split(s[1..], sep);
      if s[0] != sep {
        var r := [[s[0]] + t[0]] + t[1..];
        forall i | 0 <= i < |r| ensures sep !in r[i] {
          if i > 0 { assert r[i] == t[i]; }
        }
      }
    }
  }

  /** Joining the pieces back with the separator gives the original string. */
  lemma {:induction false} JoinSplit(s: string, sep: char)
    ensures Join(Split(s, sep), [sep]) == s
  {
    if s != [] {
      var t := Split(s[1..], sep);
      JoinSplit(s[1..], sep);
      if s[0] == sep {
        assert [[]] + t == [[]] + ([[]] + t)[1..];
        assert s == [sep] + s[1..];
      } else {
        var r := [[s[0]] + t[0]] + t[1..];
        assert r[1..] == t[1..];
        if |t| > 1 {
          assert Join(t, [sep]) == t[0] + [sep] + Join(t[1..], [sep]);
          assert s == [s[0]] + (t[0] + [sep] + Join(t[1..], [sep]));
        } else {
          assert s == [s[0]] + t[0];
        }
      }
    }
  }

  /** Splitting inverts joining when no piece contains the separator. */
  lemma {:induction false} SplitJoin(xs: seq<string>, sep: char)
    requires |xs| >= 1
    requires forall i | 0 <= i < |xs| :: sep !in xs[i]
    ensures Split(Join(xs, [sep]), sep) == xs
  {
    if |xs| == 1 {
      SplitWithout(xs[0], sep);
    } else {
      SplitJoin(xs[1..], sep);
      SplitAppend(xs[0], Join(xs[1..], [sep]), sep);
      assert Join(xs, [sep]) == xs[0] + [sep] + Join(xs[1..], [sep]);
      SplitWithout(xs[0], sep);
      assert [xs[0]] + xs[1..] == xs;
    }
  }

  lemma {:induction false} SplitWithout(s: string, sep: char)
    requires sep !in s
    ensures Split(s, sep) == [s]
  {
    if s != [] {
      SplitWithout(s[1..], sep);
      assert [s[0]] + s[1..] == s;
    }
  }

  /** A separator between `a` and `b` splits them independently. */
  lemma {:induction false} SplitAppend(a: string, b: string, sep: char)
    ensures Split(a + [sep] + b, sep) == Split(a, sep) + Split(b, sep)
  {
    if a == [] {
      SplitCons(sep, b, sep);
      assert a + [sep] + b == [sep] + b;
    } else {
      var c, a1 := a[0], a[1..];
      SplitAppend(a1, b, sep);
      SplitConsAppend(c, a1, b, sep);
      assert a == [c] + a1;
      assert a + [sep] + b == [c] + (a1 + [sep] + b);
    }
  }

  /** Putting one character in front of `a` in both sides of `SplitAppend`. */
  lemma SplitConsAppend(c: char, a: string, b: string, sep: char)
    requires Split(a + [sep] + b, sep) == Split(a, sep) + Split(b, sep)
    ensures Split([c] + (a + [sep] + b), sep) == Split([c] + a, sep) + Split(b, sep)
  {
    SplitCons(c, a + [sep] + b, sep);
    SplitCons(c, a, sep);
    SplitConsAssoc(c, sep, Split(a, sep), Split(b, sep));
  }

  /** The first-character step of `Split` commutes with appending the pieces `u`. */
  lemma SplitConsAssoc(c: char, sep: char, t: seq<string>, u: seq<string>)
    requires |t| >= 1
    ensures (if c == sep then [[]] + (t + u) else [[c] + (t + u)[0]] + (t + u)[1..])
         == (if c == sep then [[]] + t else [[c] + t[0]] + t[1..]) + u
  {
    if c != sep {
      assert (t + u)[0] == t[0] && (t + u)[1..] == t[1..] + u;
    }
  }

  /** How `Split` reads the first character of a string. */
  lemma SplitCons(c: char, s: string, sep: char)
    ensures Split([c] + s, sep) ==
      if c == sep then [[]] + Split(s, sep) else [[c] + Split(s, sep)[0]] + Split(s, sep)[1..]
  {
    assert ([c] + s)[1..] == s;
  }

  /** The filter `[x.strip() for x in pieces if x.strip()]`. */
  function StripNonEmpty(pieces: seq<string>): (r: seq<string>)
    ensures |r| <= |pieces|
    ensures forall i | 0 <= i < |r| :: r[i] != [] && Stripped(r[i])
  {
    if pieces == [] then []
    else
      var x := Strip(pieces[0]);
      if x != [] then [x] + StripNonEmpty(pieces[1..]) else StripNonEmpty(pieces[1..])
  }

  lemma {:induction false} StripNonEmptyAppend(p: seq<string>, q: seq<string>)
    ensures StripNonEmpty(p + q) == StripNonEmpty(p) + StripNonEmpty(q)
  {
    if p == [] {
      assert p + q == q;
    } else {
      var pq := p + q;
      assert pq[0] == p[0] && pq[1..] == p[1..] + q;
      StripNonEmptyAppend(p[1..], q);
      if Strip(p[0]) != [] {
        assert StripNonEmpty(pq) == [Strip(p[0])] + StripNonEmpty(p[1..] + q);
        assert StripNonEmpty(p) == [Strip(p[0])] + StripNonEmpty(p[1..]);
      }
    }
  }

  lemma {:induction false} StripNonEmptyNoSep(pieces: seq<string>, sep: char)
    requires forall i | 0 <= i < |pieces| :: sep !in pieces[i]
    ensures forall i | 0 <= i < |StripNonEmpty(pieces)| :: sep !in StripNonEmpty(pieces)[i]
  {
    if pieces != [] {
      var t := pieces[1..];
      forall i | 0 <= i < |t| ensures sep !in t[i] {
        assert t[i] == pieces[i + 1];
      }
      StripNonEmptyNoSep(t, sep);
      var x := Strip(pieces[0]);
      if sep in x {
        StripChars(pieces[0], sep);
      }
      var rest := StripNonEmpty(t);
      assert StripNonEmpty(pieces) == if x != [] then [x] + rest else rest;
    }
  }

  /** `parse_list(raw)` (utils.py:8-9, core.py:7-8). */
  function ParseList(raw: string): (r: seq<string>)
    ensures |r| <= |Split(raw, ',')|
    ensures forall i | 0 <= i < |r| :: r[i] != [] && Stripped(r[i]) && ',' !in r[i]
  {
    SplitPieces(raw, ',');
    StripNonEmptyNoSep(Split(raw, ','), ',');
    StripNonEmpty(Split(raw, ','))
  }

  /** Left-to-right order: the items of `a` come before those of `b`. */
  lemma {:induction false} ParseListAppend(a: string, b: string)
    ensures ParseList(a + [','] + b) == ParseList(a) + ParseList(b)
  {
    SplitAppend(a, b, ',');
    StripNonEmptyAppend(Split(a, ','), Split(b, ','));
  }

  /** The list is empty exactly when `raw` holds only whitespace and commas. */
  lemma {:induction false} ParseListEmpty(raw: string)
    ensures ParseList(raw) == [] <==> SpacesAndSeparators(raw, ',')
  {
    SplitBlank(raw, ',');
    StripNonEmptyBlank(Split(raw, ','));
  }

  lemma {:induction false} StripNonEmptyBlank(pieces: seq<string>)
    ensures StripNonEmpty(pieces) == [] <==> AllBlank(pieces)
  {
    if pieces != [] {
      StripEmpty(pieces[0]);
      StripNonEmptyBlank(pieces[1..]);
      assert forall i | 1 <= i < |pieces| :: pieces[i] == pieces[1..][i - 1];
    }
  }

  predicate AllBlank(pieces: seq<string>) {
    forall i | 0 <= i < |pieces| :: AllSpace(pieces[i])
  }

  predicate SpacesAndSeparators(s: string, sep: char) {
    forall i | 0 <= i < |s| :: IsSpace(s[i]) || s[i] == sep
  }

  lemma {:induction false} AllBlankCons(x: string, ys: seq<string>)
    ensures AllBlank([x] + ys) <==> AllSpace(x) && AllBlank(ys)
  {
    var r := [x] + ys;
    assert r[0] == x;
    assert forall j | 0 <= j < |ys| :: r[j + 1] == ys[j];
    if AllSpace(x) && AllBlank(ys) {
      forall i | 0 <= i < |r| ensures AllSpace(r[i]) {
        if i > 0 { assert r[i] == ys[i - 1]; }
      }
    }
  }

  /** Every piece is blank exactly when `s` holds only whitespace and separators. */
  lemma {:induction false} SplitBlank(s: string, sep: char)
    requires !IsSpace(sep)
    ensures AllBlank(Split(s, sep)) <==> SpacesAndSeparators(s, sep)
  {
    if s != [] {
      SplitBlank(s[1..], sep);
      var t := Split(s[1..], sep);
      assert SpacesAndSeparators(s, sep)
         <==> (IsSpace(s[0]) || s[0] == sep) && SpacesAndSeparators(s[1..], sep) by {
        assert forall i | 1 <= i < |s| :: s[i] == s[1..][i - 1];
      }
      var r := Split(s, sep);
      if s[0] == sep {
        assert r == [[]] + t;
        AllBlankCons([], t);
      } else {
        var h := [s[0]] + t[0];
        assert r == [h] + t[1..];
        assert AllSpace(h) <==> IsSpace(s[0]) && AllSpace(t[0]) by {
          assert h[0] == s[0];
          assert forall j | 0 <= j < |t[0]| :: h[j + 1] == t[0][j];
          if IsSpace(s[0]) && AllSpace(t[0]) {
            forall j | 0 <= j < |h| ensures IsSpace(h[j]) {
              if j > 0 { assert h[j] == t[0][j - 1]; }
            }
          }
        }
        AllBlankCons(h, t[1..]);
        AllBlankCons(t[0], t[1..]);
        assert t == [t[0]] + t[1..];
      }
    }
  }

  /** Joining clean items with commas and parsing again gives the items back. */
  lemma {:induction false} ParseListOfJoin(xs: seq<string>)
    requires forall i | 0 <= i < |xs| :: xs[i] != [] && Stripped(xs[i]) && ',' !in xs[i]
    ensures ParseList(Join(xs, [','])) == xs
  {
    if xs == [] {
      assert Split([], ',') == [[]];
      assert StripNonEmpty([[]]) == [];
    } else {
      SplitJoin(xs, ',');
      StrippedFixed(xs);
    }
  }

  /** `parse_list(",".join(parse_list(raw))) == parse_list(raw)`. */
  lemma {:induction false} ParseListRoundTrip(raw: string)
    ensures ParseList(Join(ParseList(raw), [','])) == ParseList(raw)
  {
    ParseListOfJoin(ParseList(raw));
  }

  lemma {:induction false} StrippedFixed(xs: seq<string>)
    requires forall i | 0 <= i < |xs| :: xs[i] != [] && Stripped(xs[i])
    ensures StripNonEmpty(xs) == xs
  {
    if xs != [] {
      StripOfStripped(xs[0]);
      StrippedFixed(xs[1..]);
      assert xs == [xs[0]] + xs[1..];
    }
  }

  // ---------------------------------------------------------------------------
  // Substrings and removal

  predicate StartsWith(s: string, p: string) {
    |p| <= |s| && s[..|p|] == p
  }

  /** Python's `s.endswith(p)`. */
  predicate EndsWith(s: string, p: string) {
    |p| <= |s| && s[|s| - |p|..] == p
  }

  /** `p` occurs in `s` at position `i`. */
  predicate OccursAt(p: string, s: string, i: nat) {
    i + |p| <= |s| && s[i..i + |p|] == p
  }

  /** Python's `p in s` for strings: `p` occurs as a contiguous substring. */
  function Contains(s: string, p: string): (b: bool)
    ensures b <==> exists i: nat :: OccursAt(p, s, i)
  {
    if StartsWith(s, p) then
      assert OccursAt(p, s, 0);
      true
    else if s == [] then
      assert forall i: nat :: !OccursAt(p, s, i);
      false
    else
      var b := Contains(s[1..], p);
      assert forall i: nat :: OccursAt(p, s[1..], i) <==> OccursAt(p, s, i + 1) by {
        forall i: nat ensures OccursAt(p, s[1..], i) <==> OccursAt(p, s, i + 1) {
          if i + 1 + |p| <= |s| { assert s[1..][i..i + |p|] == s[i + 1..i + 1 + |p|]; }
        }
      }
      assert forall i: nat :: OccursAt(p, s, i) ==> i > 0;
      assert (exists i: nat :: OccursAt(p, s, i)) ==> exists i: nat :: OccursAt(p, s[1..], i) by {
        if exists i: nat :: OccursAt(p, s, i) {
          var i: nat :| OccursAt(p, s, i);
          assert OccursAt(p, s[1..], i - 1);
        }
      }
      b
  }

  /** A one-character pattern occurs exactly when that character does. */
  lemma {:induction false} ContainsChar(s: string, c: char)
    ensures Contains(s, [c]) <==> c in s
  {
    if c in s {
      var i :| 0 <= i < |s| && s[i] == c;
      assert OccursAt([c], s, i);
    } else {
      forall i: nat ensures !OccursAt([c], s, i) {
        if i + 1 <= |s| { assert s[i..i + 1] == [s[i]]; }
      }
    }
  }

  /** `s.replace(p, "")`: removes the non-overlapping occurrences of `p`, left to right. */
  function RemoveAll(s: string, p: string): (r: string)
    requires p != []
    ensures |r| <= |s|
    ensures forall c | c in r :: c in s
  {
    if |s| < |p| then s
    else if s[..|p|] == p then RemoveAll(s[|p|..], p)
    else [s[0]] + RemoveAll(s[1..], p)
  }

  /** Removing a pattern that does not occur changes nothing. */
  lemma {:induction false} RemoveAllAbsent(s: string, p: string)
    requires p != [] && !Contains(s, p)
    ensures RemoveAll(s, p) == s
  {
    if |s| >= |p| {
      assert !StartsWith(s, p);
      RemoveAllAbsent(s[1..], p);
      assert [s[0]] + s[1..] == s;
    }
  }

  /** Removing a one-character pattern leaves no occurrence of it. */
  lemma {:induction false} RemoveAllChar(s: string, c: char)
    ensures c !in RemoveAll(s, [c])
    ensures c !in s ==> RemoveAll(s, [c]) == s
  {
    if s != [] {
      RemoveAllChar(s[1..], c);
      assert s[..1] == [s[0]];
      assert [s[0]] + s[1..] == s;
    }
  }

  /** `cell.lower() == "nan"`: only letters that lower-case to 'n', 'a', 'n' qualify. */
  predicate IsNanText(cell: string) {
    |cell| == 3 && cell[0] in "nN" && cell[1] in "aA" && cell[2] in "nN"
  }

  // ---------------------------------------------------------------------------
  // Code-point order of strings and `sorted`

  /** Python's `a <= b` on `str`: lexicographic on code points, a prefix first. */
  predicate StrLe(a: string, b: string) {
    a == [] || (b != [] && (a[0] < b[0] || (a[0] == b[0] && StrLe(a[1..], b[1..]))))
  }

  lemma {:induction false} StrLeReflexive(a: string)
    ensures StrLe(a, a)
  {
    if a != [] { StrLeReflexive(a[1..]); }
  }

  lemma {:induction false} StrLeTotal(a: string, b: string)
    ensures StrLe(a, b) || StrLe(b, a)
  {
    if a != [] && b != [] && a[0] == b[0] { StrLeTotal(a[1..], b[1..]); }
  }

  lemma {:induction false} StrLeAntisymmetric(a: string, b: string)
    requires StrLe(a, b) && StrLe(b, a)
    ensures a == b
  {
    if a != [] && b != [] {
      StrLeAntisymmetric(a[1..], b[1..]);
      assert a == [a[0]] + a[1..] && b == [b[0]] + b[1..];
    }
  }

  lemma {:induction false} StrLeTransitive(a: string, b: string, c: string)
    requires StrLe(a, b) && StrLe(b, c)
    ensures StrLe(a, c)
  {
    if a != [] && b != [] && c != [] && a[0] == b[0] && b[0] == c[0] {
      StrLeTransitive(a[1..], b[1..], c[1..]);
    }
  }

  predicate Sorted(xs: seq<string>) {
    forall i, j | 0 <= i < j < |xs| :: StrLe(xs[i], xs[j])
  }

  function Insert(x: string, xs: seq<string>): (r: seq<string>)
    requires Sorted(xs)
    ensures Sorted(r)
    ensures multiset(r) == multiset(xs) + multiset{x}
  {
    if xs == [] then [x]
    else if StrLe(x, xs[0]) then
      assert forall j | 0 <= j < |xs| :: StrLe(x, xs[j]) by {
        forall j | 0 <= j < |xs| ensures StrLe(x, xs[j]) {
          if j > 0 { StrLeTransitive(x, xs[0], xs[j]); }
        }
      }
      [x] + xs
    else
      StrLeTotal(x, xs[0]);
      var t := Insert(x, xs[1..]);
      assert multiset(t) == multiset(xs[1..]) + multiset{x};
      assert forall j | 0 <= j < |t| :: StrLe(xs[0], t[j]) by {
        forall j | 0 <= j < |t| ensures StrLe(xs[0], t[j]) {
          assert t[j] in multiset(t);
          if t[j] != x {
            assert t[j] in multiset(xs[1..]);
            var k :| 0 <= k < |xs[1..]| && xs[1..][k] == t[j];
          }
        }
      }
      assert xs == [xs[0]] + xs[1..];
      [xs[0]] + t
  }

  /** Python's `sorted` on a list of strings. */
  function SortSeq(xs: seq<string>): (r: seq<string>)
    ensures Sorted(r)
    ensures multiset(r) == multiset(xs)
  {
    if xs == [] then []
    else
      assert xs == [xs[0]] + xs[1..];
      Insert(xs[0], SortSeq(xs[1..]))
  }

  /** The head of a sorted list is below every element of the list. */
  lemma {:induction false} SortedHead(a: seq<string>, x: string)
    requires Sorted(a) && a != [] && x in multiset(a)
    ensures StrLe(a[0], x)
  {
    var j :| 0 <= j < |a| && a[j] == x;
    if j == 0 { StrLeReflexive(x); }
  }

  /** Two sorted lists with the same elements are equal: `sorted` is canonical. */
  lemma {:induction false} SortedUnique(a: seq<string>, b: seq<string>)
    requires Sorted(a) && Sorted(b) && multiset(a) == multiset(b)
    ensures a == b
  {
    if a == [] {
      assert |multiset(b)| == 0;
    } else {
      assert a[0] in multiset(a);
      assert b != [];
      assert b[0] in multiset(b);
      SortedHead(a, b[0]);
      SortedHead(b, a[0]);
      StrLeAntisymmetric(a[0], b[0]);
      assert a == [a[0]] + a[1..] && b == [b[0]] + b[1..];
      assert multiset(a) == multiset([a[0]]) + multiset(a[1..]);
      assert multiset(b) == multiset([b[0]]) + multiset(b[1..]);
      assert multiset([a[0]]) == multiset([b[0]]);
      assert multiset(a[1..]) == multiset(b[1..]) by {
        forall x ensures multiset(a[1..])[x] == multiset(b[1..])[x] {
          assert multiset(a)[x] == multiset([a[0]])[x] + multiset(a[1..])[x];
          assert multiset(b)[x] == multiset([b[0]])[x] + multiset(b[1..])[x];
        }
      }
      SortedUnique(a[1..], b[1..]);
    }
  }

  predicate IsLeast(m: string, s: set<string>) {
    m in s && forall y | y in s :: StrLe(m, y)
  }

  lemma {:induction false} LeastExists(s: set<string>)
    requires s != {}
    ensures exists m :: IsLeast(m, s)
    decreases |s|
  {
    var x :| x in s;
    if s - {x} == {} {
      assert s == {x};
      StrLeReflexive(x);
      assert IsLeast(x, s);
    } else {
      LeastExists(s - {x});
      var m :| IsLeast(m, s - {x});
      StrLeTotal(m, x);
      if StrLe(m, x) {
        assert IsLeast(m, s);
      } else {
        forall y | y in s ensures StrLe(x, y) {
          if y == x { StrLeReflexive(x); }
          else { assert y in s - {x}; StrLeTransitive(x, m, y); }
        }
        assert IsLeast(x, s);
      }
    }
  }

  /** `sorted(s)` for a set of strings: its members, each once, in increasing order. */
  function SortedElems(s: set<string>): (r: seq<string>)
    ensures Sorted(r) && |r| == |s|
    ensures forall x :: x in r <==> x in s
    decreases |s|
  {
    if s == {} then []
    else
      LeastExists(s);
      assert forall m, m' | IsLeast(m, s) && IsLeast(m', s) :: m == m' by {
        forall m, m' | IsLeast(m, s) && IsLeast(m', s) ensures m == m' {
          StrLeAntisymmetric(m, m');
        }
      }
      var m :| IsLeast(m, s);
      var t := SortedElems(s - {m});
      assert forall j | 0 <= j < |t| :: StrLe(m, t[j]) by {
        forall j | 0 <= j < |t| ensures StrLe(m, t[j]) { assert t[j] in t; }
      }
      [m] + t
  }
}
