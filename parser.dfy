/**
 * scripts/parser.js: recognising the input format (`getInputMatrixType`),
 * splitting a GNU Octave dense matrix into rows and cells
 * (`parseDenseMatrix`), and the unfinished `parseSparseMatrix`.
 *
 * The two recognition patterns are unanchored: `\s*\[` for a dense matrix and
 * `\s*\[\s*\[` for a sparse one. The cleaning regexes drop every `[`, `]` and
 * `'`, then every JavaScript whitespace character. `parseFloat` is a
 * parameter of the model.
 */
module Parser {
  import opened Wrappers

  // ---------------------------------------------------------------------------
  // Characters and patterns
  // ---------------------------------------------------------------------------

  /** The JavaScript regular-expression class `\s`: the white space and line terminators of ECMAScript. */
  predicate IsSpace(c: char) {
    var k := c as int;
    k == 0x09 || k == 0x0A || k == 0x0B || k == 0x0C || k == 0x0D || k == 0x20 || k == 0xA0 ||
    k == 0x1680 || (0x2000 <= k <= 0x200A) || k == 0x2028 || k == 0x2029 || k == 0x202F ||
    k == 0x205F || k == 0x3000 || k == 0xFEFF
  }

  /** The characters of `MATCH_SQUARE_BRACKETS_REGEX` (line 7): `[`, `]` and `'`. */
  predicate IsBracket(c: char) {
    c == '[' || c == ']' || c == '\''
  }

  /** The end of the run of white space that starts at `i`. */
  function SkipSpace(s: string, i: nat): (j: nat)
    requires i <= |s|
    ensures i <= j <= |s| && (j < |s| ==> !IsSpace(s[j]))
    ensures forall k :: i <= k < j ==> IsSpace(s[k])
    decreases |s| - i
  {
    if i < |s| && IsSpace(s[i]) then SkipSpace(s, i + 1) else i
  }

  /**
   * `\s*\[` matches at `i`. White space and `[` are disjoint, so the greedy
   * `\s*` gives the only way the match can go on.
   */
  predicate DenseMatchAt(s: string, i: nat)
    requires i <= |s|
  {
    var j := SkipSpace(s, i);
    j < |s| && s[j] == '['
  }

  /** `\s*\[\s*\[` matches at `i`. */
  predicate SparseMatchAt(s: string, i: nat)
    requires i <= |s|
  {
    var j := SkipSpace(s, i);
    j < |s| && s[j] == '[' && var k := SkipSpace(s, j + 1); k < |s| && s[k] == '['
  }

  /** `IDENTIFY_DENSE_REGEX.test(s)`, trying the start positions from `i` on. */
  predicate DenseSearch(s: string, i: nat)
    requires i <= |s|
    decreases |s| - i
  {
    DenseMatchAt(s, i) || (i < |s| && DenseSearch(s, i + 1))
  }

  /** `IDENTIFY_SPARSE_REGEX.test(s)`, trying the start positions from `i` on. */
  predicate SparseSearch(s: string, i: nat)
    requires i <= |s|
    decreases |s| - i
  {
    SparseMatchAt(s, i) || (i < |s| && SparseSearch(s, i + 1))
  }

  const DENSE: string := "Dense"
  const SPARSE: string := "Sparse"
  const UNRECOGNIZED: string := "Unrecognized matrix type"

  /** `getInputMatrixType` (lines 51-61): the dense test first, then the sparse one. */
  function GetInputMatrixType(s: string): string {
    if DenseSearch(s, 0) then DENSE
    else if SparseSearch(s, 0) then SPARSE
    else UNRECOGNIZED
  }

  /** The dense pattern matches from `i` on exactly when a `[` follows. */
  lemma {:induction false} DenseSearchFindsBracket(s: string, i: nat)
    requires i <= |s|
    ensures DenseSearch(s, i) <==> '[' in s[i..]
    decreases |s| - i
  {
    if i < |s| {
      DenseSearchFindsBracket(s, i + 1);
      assert s[i..] == [s[i]] + s[i + 1..];
      if DenseMatchAt(s, i) {
        assert s[i..][SkipSpace(s, i) - i] == '[';
      }
    }
  }

  /** Wherever the sparse pattern matches, the dense one does too. */
  lemma {:induction false} SparseSearchIsDense(s: string, i: nat)
    requires i <= |s| && SparseSearch(s, i)
    ensures DenseSearch(s, i)
    decreases |s| - i
  {
    if !SparseMatchAt(s, i) {
      SparseSearchIsDense(s, i + 1);
    }
  }

  /**
   * The format found: "Dense" exactly when the text holds a `[`, the
   * unrecognised type exactly when it holds none, and never "Sparse".
   */
  lemma InputMatrixType(s: string)
    ensures GetInputMatrixType(s) == DENSE <==> '[' in s
    ensures GetInputMatrixType(s) == UNRECOGNIZED <==> '[' !in s
    ensures GetInputMatrixType(s) != SPARSE
  {
    DenseSearchFindsBracket(s, 0);
    assert s[0..] == s;
    if SparseSearch(s, 0) {
      SparseSearchIsDense(s, 0);
    }
  }

  /** The sparse branch is shadowed: `[[1]]` matches the sparse pattern yet is reported dense. */
  lemma SparseShadowed()
    ensures SparseSearch("[[1]]", 0) && GetInputMatrixType("[[1]]") == DENSE
  {
    assert SparseMatchAt("[[1]]", 0);
  }

  // ---------------------------------------------------------------------------
  // Cleaning and splitting
  // ---------------------------------------------------------------------------

  /** `s.replace(MATCH_SQUARE_BRACKETS_REGEX, '')`: every `[`, `]` and `'` removed. */
  function RemoveBrackets(s: string): (t: string)
    ensures |t| <= |s|
  {
    if |s| == 0 then "" else (if IsBracket(s[0]) then "" else [s[0]]) + RemoveBrackets(s[1..])
  }

  /** `s.replace(MATCH_WHITESPACE_REGEX, '')`: every white-space character removed. */
  function RemoveWhitespace(s: string): (t: string)
    ensures |t| <= |s|
  {
    if |s| == 0 then "" else (if IsSpace(s[0]) then "" else [s[0]]) + RemoveWhitespace(s[1..])
  }

  /** The cleaned text that line 78 splits. */
  function Clean(s: string): string {
    RemoveWhitespace(RemoveBrackets(s))
  }

  /** A character survives the bracket removal exactly when it is not a bracket. */
  lemma {:induction false} RemoveBracketsKeeps(s: string, c: char)
    ensures c in RemoveBrackets(s) <==> c in s && !IsBracket(c)
  {
    if |s| > 0 {
      RemoveBracketsKeeps(s[1..], c);
      assert s == [s[0]] + s[1..];
    }
  }

  /** A character survives the white-space removal exactly when it is not white space. */
  lemma {:induction false} RemoveWhitespaceKeeps(s: string, c: char)
    ensures c in RemoveWhitespace(s) <==> c in s && !IsSpace(c)
  {
    if |s| > 0 {
      RemoveWhitespaceKeeps(s[1..], c);
      assert s == [s[0]] + s[1..];
    }
  }

  /**
   * The cleaned text holds no `[`, `]`, `'` or white space, and every other
   * character of the input is still there.
   */
  lemma CleanKeeps(s: string, c: char)
    ensures c in Clean(s) <==> c in s && !IsBracket(c) && !IsSpace(c)
  {
    RemoveBracketsKeeps(s, c);
    RemoveWhitespaceKeeps(RemoveBrackets(s), c);
  }

  /** Removing characters from text that has none of them changes nothing. */
  lemma {:induction false} CleanIdempotent(s: string)
    ensures Clean(Clean(s)) == Clean(s)
  {
    var t := Clean(s);
    forall c | c in t
      ensures !IsBracket(c) && !IsSpace(c)
    {
      CleanKeeps(s, c);
    }
    NothingToRemove(t);
  }

  /** Text without brackets and white space is its own cleaning. */
  lemma {:induction false} NothingToRemove(t: string)
    requires forall c :: c in t ==> !IsBracket(c) && !IsSpace(c)
    ensures RemoveBrackets(t) == t && RemoveWhitespace(t) == t
  {
    if |t| > 0 {
      NothingToRemove(t[1..]);
      assert t == [t[0]] + t[1..];
    }
  }

  /** The number of occurrences of `d` in `s`. */
  function Count(s: string, d: char): nat {
    if |s| == 0 then 0 else (if s[0] == d then 1 else 0) + Count(s[1..], d)
  }

  /**
   * `s.split(d)` for a one-character separator: the pieces between the
   * separators, empty ones included; the empty text splits into one empty piece.
   */
  function Split(s: string, d: char): (parts: seq<string>)
    ensures |parts| >= 1
  {
    if |s| == 0 then [""]
    else
      var rest := Split(s[1..], d);
      if s[0] == d then [""] + rest else [[s[0]] + rest[0]] + rest[1..]
  }

  /** `parts.join(d)`. */
  function Join(parts: seq<string>, d: char): string
    requires |parts| >= 1
  {
    if |parts| == 1 then parts[0] else parts[0] + [d] + Join(parts[1..], d)
  }

  /** Splitting gives one piece more than there are separators, and no piece holds one. */
  lemma {:induction false} SplitShape(s: string, d: char)
    ensures |Split(s, d)| == Count(s, d) + 1
    ensures forall k :: 0 <= k < |Split(s, d)| ==> d !in Split(s, d)[k]
  {
    if |s| > 0 {
      SplitShape(s[1..], d);
      var rest := Split(s[1..], d);
      if s[0] != d {
        assert d !in rest[0];
        assert Split(s, d)[1..] == rest[1..];
      }
    }
  }

  /** Joining the pieces with the separator gives the text back. */
  lemma {:induction false} JoinSplit(s: string, d: char)
    ensures Join(Split(s, d), d) == s
  {
    if |s| > 0 {
      JoinSplit(s[1..], d);
      var rest := Split(s[1..], d);
      if s[0] == d {
        assert Split(s, d)[1..] == rest;
      } else if |rest| == 1 {
        assert Join(Split(s, d), d) == [s[0]] + rest[0];
      } else {
        assert Split(s, d)[1..] == rest[1..];
        assert Join(rest, d) == rest[0] + [d] + Join(rest[1..], d);
      }
    }
  }

  /** Splitting pieces that hold no separator, joined by it, gives the pieces back. */
  lemma {:induction false} SplitJoin(parts: seq<string>, d: char)
    requires |parts| >= 1 && forall k :: 0 <= k < |parts| ==> d !in parts[k]
    ensures Split(Join(parts, d), d) == parts
    decreases |parts|, |parts[0]|
  {
    var p := parts[0];
    if |p| > 0 {
      var tail := [p[1..]] + parts[1..];
      assert d !in p[1..];
      assert forall k :: 0 <= k < |tail| ==> d !in tail[k];
      SplitJoin(tail, d);
      JoinHead(parts, d);
      SplitChar(p[0], Join(tail, d), d);
      assert [p[0]] + p[1..] == p;
      assert parts == [p] + parts[1..];
    } else if |parts| > 1 {
      SplitJoin(parts[1..], d);
      JoinCons(parts, d);
      SplitChar(d, Join(parts[1..], d), d);
      assert [""] + parts[1..] == parts;
    }
  }

  /** Splitting text that starts with `c`: a new empty piece at a separator, else `c` opens the first piece. */
  lemma SplitChar(c: char, s: string, d: char)
    ensures var rest := Split(s, d);
      Split([c] + s, d) == if c == d then [""] + rest else [[c] + rest[0]] + rest[1..]
  {
    assert ([c] + s)[1..] == s;
  }

  /** The first character of a nonempty first piece comes first in the join. */
  lemma JoinHead(parts: seq<string>, d: char)
    requires |parts| >= 1 && |parts[0]| > 0
    ensures Join(parts, d) == [parts[0][0]] + Join([parts[0][1..]] + parts[1..], d)
  {
    var tail := [parts[0][1..]] + parts[1..];
    JoinCons(parts, d);
    JoinCons(tail, d);
    assert tail[1..] == parts[1..];
    assert parts[0] == [parts[0][0]] + parts[0][1..];
  }

  /** The join is the first piece, then what the rest contributes. */
  lemma JoinCons(parts: seq<string>, d: char)
    requires |parts| >= 1
    ensures Join(parts, d) == parts[0] + (if |parts| == 1 then "" else [d] + Join(parts[1..], d))
  {
  }

  // ---------------------------------------------------------------------------
  // parseDenseMatrix
  // ---------------------------------------------------------------------------

  /** A cell of the parsed matrix: the text of the cell, or the number `parseFloat` made of it. */
  datatype Cell = Text(text: string) | Number(value: real)

  /** `parseToString`, with `undefined` read as `false` (lines 74-76). */
  function ToStringFlag(parseToString: Option<bool>): bool {
    if parseToString.None? then false else parseToString.value
  }

  /** The cells of one row: the pieces between commas, as text or as numbers. */
  function RowCells(row: string, toString: bool, parseFloat: string -> real): (cells: seq<Cell>)
    ensures |cells| == |Split(row, ',')|
  {
    var pieces := Split(row, ',');
    seq(|pieces|, c requires 0 <= c < |pieces| => if toString then Text(pieces[c]) else Number(parseFloat(pieces[c])))
  }

  /** What `parseDenseMatrix` returns: the cleaned text split at `;`, every row split at `,`. */
  function DenseCells(s: string, parseToString: Option<bool>, parseFloat: string -> real): (m: seq<seq<Cell>>)
    ensures |m| == |Split(Clean(s), ';')|
  {
    var rows := Split(Clean(s), ';');
    seq(|rows|, r requires 0 <= r < |rows| => RowCells(rows[r], ToStringFlag(parseToString), parseFloat))
  }

  /**
   * `parseDenseMatrix` (lines 69-92): clean, split into rows, then overwrite
   * each row with its cells and, unless `parseToString`, each cell with its number.
   */
  method ParseDenseMatrix(s: string, parseToString: Option<bool>, parseFloat: string -> real)
    returns (m: seq<seq<Cell>>)
    ensures m == DenseCells(s, parseToString, parseFloat)
  {
    var toString := parseToString.Some? && parseToString.value;
    var rows := Split(RemoveWhitespace(RemoveBrackets(s)), ';');
    var a := new seq<Cell>[|rows|];
    var row := 0;
    while row < |rows|
      invariant row <= |rows| && a.Length == |rows|
      invariant forall r :: 0 <= r < row ==> a[r] == RowCells(rows[r], toString, parseFloat)
    {
      var pieces := Split(rows[row], ',');
      a[row] := seq(|pieces|, c requires 0 <= c < |pieces| => Text(pieces[c]));
      if !toString {
        var col := 0;
        while col < |a[row]|
          invariant col <= |a[row]| == |pieces|
          invariant forall r :: 0 <= r < row ==> a[r] == RowCells(rows[r], toString, parseFloat)
          invariant forall c :: 0 <= c < |pieces| ==>
            a[row][c] == if c < col then Number(parseFloat(pieces[c])) else Text(pieces[c])
        {
          a[row] := a[row][col := Number(parseFloat(a[row][col].text))];
          col := col + 1;
        }
      }
      assert a[row] == RowCells(rows[row], toString, parseFloat);
      row := row + 1;
    }
    m := a[..];
  }

  /**
   * The shape of the result: one row more than there are `;` in the cleaned
   * text, and in every row one cell more than there are `,` in its piece;
   * so neither the matrix nor any row is empty.
   */
  lemma DenseShape(s: string, parseToString: Option<bool>, parseFloat: string -> real)
    ensures var m, rows := DenseCells(s, parseToString, parseFloat), Split(Clean(s), ';');
      && |m| == Count(Clean(s), ';') + 1
      && forall r :: 0 <= r < |m| ==> |m[r]| == Count(rows[r], ',') + 1 >= 1
  {
    var rows := Split(Clean(s), ';');
    SplitShape(Clean(s), ';');
    forall r | 0 <= r < |rows|
      ensures |Split(rows[r], ',')| == Count(rows[r], ',') + 1
    {
      SplitShape(rows[r], ',');
    }
  }

  /** The texts of a row of text cells. */
  function Texts(cells: seq<Cell>): (t: seq<string>)
    requires forall c :: 0 <= c < |cells| ==> cells[c].Text?
    ensures |t| == |cells|
  {
    seq(|cells|, c requires 0 <= c < |cells| => cells[c].text)
  }

  /**
   * With `parseToString`, joining each row's cells with `,` and the rows with
   * `;` gives back the cleaned text.
   */
  lemma DenseTextRoundTrip(s: string, parseFloat: string -> real)
    ensures var m := DenseCells(s, Some(true), parseFloat);
      && (forall r, c :: 0 <= r < |m| && 0 <= c < |m[r]| ==> m[r][c].Text?)
      && var joined := seq(|m|, r requires 0 <= r < |m| => Join(Texts(m[r]), ','));
        |m| >= 1 && Join(joined, ';') == Clean(s)
  {
    var m := DenseCells(s, Some(true), parseFloat);
    var rows := Split(Clean(s), ';');
    var joined := seq(|m|, r requires 0 <= r < |m| => Join(Texts(m[r]), ','));
    forall r | 0 <= r < |m|
      ensures joined[r] == rows[r]
    {
      assert Texts(m[r]) == Split(rows[r], ',');
      JoinSplit(rows[r], ',');
    }
    assert joined == rows;
    JoinSplit(Clean(s), ';');
  }

  // ---------------------------------------------------------------------------
  // parseSparseMatrix
  // ---------------------------------------------------------------------------

  /**
   * `parseSparseMatrix` (lines 99-113), unfinished: it splits the text at
   * commas, runs a loop with an empty body over the pieces and returns its
   * `M`, which nothing ever assigns.
   */
  method ParseSparseMatrix(s: string) returns (m: Option<seq<seq<real>>>)
    ensures m == None
  {
    var stringValues := Split(RemoveWhitespace(s), ',');
    var i := 0;
    while i < |stringValues|
      invariant i <= |stringValues|
    {
      i := i + 1;
    }
    m := None;
  }
}
