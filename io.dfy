/** src/graphs/io.py: cleaning of neighbourhood names, and the "melting" of the
    microregion table (one column per microregion, each cell a comma-separated list of
    neighbourhoods) into a map from neighbourhood to microregion.  The CSV reading is
    replaced by the field names and rows `csv.DictReader` yields. */
module NameIO {
  import opened Wrappers
  import opened Text

  // ---------------------------------------------------------------------------------
  // normalizar_nome (lines 6-11)
  // ---------------------------------------------------------------------------------

  /** `encode("ASCII", "ignore").decode()`: every non-ASCII character is dropped. */
  function AsciiOnly(s: string): string {
    if s == [] then []
    else (if IsAscii(s[0]) then [s[0]] else []) + AsciiOnly(s[1..])
  }

  predicate AllAscii(s: string) {
    forall i | 0 <= i < |s| :: IsAscii(s[i])
  }

  predicate NoUpper(s: string) {
    forall i | 0 <= i < |s| :: !IsUpper(s[i])
  }

  /** No ASCII character of `s` is visible: what is left after dropping the non-ASCII
      ones is white space. */
  predicate Blank(s: string) {
    forall i | 0 <= i < |s| :: IsAscii(s[i]) ==> IsSpace(s[i])
  }

  /** The only white space is the plain space, and never two in a row. */
  predicate Collapsed(s: string) {
    forall i | 0 <= i < |s| && IsSpace(s[i]) :: s[i] == ' ' && (i + 1 < |s| ==> !IsSpace(s[i + 1]))
  }

  /** The characters of `s` that are not white space, in order. */
  function Visible(s: string): string {
    if s == [] then []
    else (if IsSpace(s[0]) then [] else [s[0]]) + Visible(s[1..])
  }

  /** `re.sub(r"\s+", " ", s)`: each maximal run of white space becomes one space.  A
      space followed by another is dropped; the last of a run is replaced by `' '`. */
  function Collapse(s: string): string {
    if s == [] then []
    else if IsSpace(s[0]) then
      if |s| > 1 && IsSpace(s[1]) then Collapse(s[1..]) else " " + Collapse(s[1..])
    else [s[0]] + Collapse(s[1..])
  }

  /** `normalizar_nome`, with the NFKD step taken as already done. */
  function NormalizeName(s: string): string {
    Collapse(Strip(Lower(AsciiOnly(s))))
  }

  predicate AllSpace(s: string) {
    forall i | 0 <= i < |s| :: IsSpace(s[i])
  }

  lemma {:induction false} AsciiOnlyShape(s: string)
    ensures AllAscii(AsciiOnly(s))
    ensures AllAscii(s) ==> AsciiOnly(s) == s
  {
    if s != [] {
      AsciiOnlyShape(s[1..]);
      if AllAscii(s) {
        assert AllAscii(s[1..]) by {
          forall i | 0 <= i < |s| - 1 ensures IsAscii(s[1..][i]) { assert s[1..][i] == s[i + 1]; }
        }
      }
    }
  }

  /** Dropping the non-ASCII characters leaves only white space exactly when the input
      is blank. */
  lemma {:induction false} AsciiOnlyBlank(s: string)
    ensures Blank(s) <==> AllSpace(AsciiOnly(s))
  {
    if s != [] {
      var t := s[1..];
      AsciiOnlyBlank(t);
      var h := if IsAscii(s[0]) then [s[0]] else [];
      var r, rt := AsciiOnly(s), AsciiOnly(t);
      assert r == h + rt;
      if Blank(s) {
        assert Blank(t) by {
          forall i | 0 <= i < |t| && IsAscii(t[i]) ensures IsSpace(t[i]) { assert t[i] == s[i + 1]; }
        }
        forall k | 0 <= k < |r| ensures IsSpace(r[k]) {
          if k >= |h| { assert r[k] == rt[k - |h|]; }
        }
      } else {
        var i :| 0 <= i < |s| && IsAscii(s[i]) && !IsSpace(s[i]);
        if i == 0 {
          assert r[0] == s[0];
        } else {
          assert t[i - 1] == s[i];
          var k :| 0 <= k < |rt| && !IsSpace(rt[k]);
          assert r[|h| + k] == rt[k];
        }
      }
    }
  }

  /** `re.sub` leaves collapsed white space, and white space at the start exactly where
      the input has it. */
  lemma {:induction false} CollapseCollapsed(s: string)
    ensures Collapsed(Collapse(s))
    ensures s != [] ==> Collapse(s) != [] && (IsSpace(Collapse(s)[0]) <==> IsSpace(s[0]))
  {
    if s != [] {
      var t := s[1..];
      CollapseCollapsed(t);
      var r, rt := Collapse(s), Collapse(t);
      if IsSpace(s[0]) && !(|s| > 1 && IsSpace(s[1])) {
        assert r == " " + rt;
        forall i | 0 <= i < |r| && IsSpace(r[i]) ensures r[i] == ' ' && (i + 1 < |r| ==> !IsSpace(r[i + 1])) {
          if i > 0 { assert r[i] == rt[i - 1]; }
          if i + 1 < |r| { assert r[i + 1] == rt[i]; }
        }
      } else if !IsSpace(s[0]) {
        assert r == [s[0]] + rt;
        forall i | 0 <= i < |r| && IsSpace(r[i]) ensures r[i] == ' ' && (i + 1 < |r| ==> !IsSpace(r[i + 1])) {
          assert i > 0;
          assert r[i] == rt[i - 1];
          if i + 1 < |r| { assert r[i + 1] == rt[i]; }
        }
      }
    }
  }

  /** White space at the end of `re.sub`'s result exactly where the input has it. */
  lemma {:induction false} CollapseLast(s: string)
    requires s != []
    ensures Collapse(s) != [] && (IsSpace(Collapse(s)[|Collapse(s)| - 1]) <==> IsSpace(s[|s| - 1]))
  {
    var t := s[1..];
    if t != [] {
      CollapseLast(t);
      var r, rt := Collapse(s), Collapse(t);
      assert r[|r| - 1] == rt[|rt| - 1];
      assert s[|s| - 1] == t[|t| - 1];
    }
  }

  /** `re.sub` keeps the visible text. */
  lemma {:induction false} CollapseVisible(s: string)
    ensures Visible(Collapse(s)) == Visible(s)
  {
    if s != [] {
      var t := s[1..];
      CollapseVisible(t);
      var r, rt := Collapse(s), Collapse(t);
      if IsSpace(s[0]) {
        if !(|s| > 1 && IsSpace(s[1])) {
          assert r == " " + rt;
          assert r[1..] == rt;
        }
      } else {
        assert r == [s[0]] + rt;
        assert r[1..] == rt;
      }
    }
  }

  /** `re.sub` adds no character but `' '`, and makes nothing longer. */
  lemma {:induction false} CollapseChars(s: string)
    ensures |Collapse(s)| <= |s|
    ensures AllAscii(s) ==> AllAscii(Collapse(s))
    ensures NoUpper(s) ==> NoUpper(Collapse(s))
  {
    if s != [] {
      var t := s[1..];
      CollapseChars(t);
      var r, rt := Collapse(s), Collapse(t);
      if AllAscii(s) {
        assert AllAscii(t) by {
          forall i | 0 <= i < |t| ensures IsAscii(t[i]) { assert t[i] == s[i + 1]; }
        }
        forall i | 0 <= i < |r| ensures IsAscii(r[i]) {
          if i > 0 && r != rt { assert r[i] == rt[i - 1]; }
        }
      }
      if NoUpper(s) {
        assert NoUpper(t) by {
          forall i | 0 <= i < |t| ensures !IsUpper(t[i]) { assert t[i] == s[i + 1]; }
        }
        forall i | 0 <= i < |r| ensures !IsUpper(r[i]) {
          if i > 0 && r != rt { assert r[i] == rt[i - 1]; }
        }
      }
    }
  }

  /** A collapsed string is left as it is: the strings `re.sub` does not change are
      exactly the collapsed ones. */
  lemma {:induction false} CollapseFixed(s: string)
    ensures Collapse(s) == s <==> Collapsed(s)
  {
    CollapseCollapsed(s);
    if Collapsed(s) && s != [] {
      var t := s[1..];
      assert Collapsed(t) by {
        forall i | 0 <= i < |t| && IsSpace(t[i]) ensures t[i] == ' ' && (i + 1 < |t| ==> !IsSpace(t[i + 1])) {
          assert t[i] == s[i + 1];
          assert IsSpace(s[i + 1]);
        }
      }
      CollapseFixed(t);
      if IsSpace(s[0]) {
        assert s[0] == ' ';
        assert !(|s| > 1 && IsSpace(s[1]));
        assert s == " " + t;
      } else {
        assert s == [s[0]] + t;
      }
    }
  }

  /** Stripping leaves nothing exactly when the input is all white space. */
  lemma StripEmpty(s: string)
    ensures Strip(s) == [] <==> AllSpace(s)
  {
    var i, j := StripSlice(s);
    if Strip(s) == [] {
      forall k | 0 <= k < |s| ensures IsSpace(s[k]) {
        if k < i {
          assert SpaceBetween(s, 0, i);
        } else {
          assert SpaceBetween(s, j, |s|);
        }
      }
    } else {
      assert Strip(s)[0] == s[i];
    }
  }

  /** `normalizar_nome` gives a lower-case ASCII name, without white space at its ends,
      whose only white space is single spaces. */
  lemma NormalizeShape(s: string)
    ensures var r := NormalizeName(s); AllAscii(r) && NoUpper(r) && Trimmed(r) && Collapsed(r)
  {
    var t1 := Lower(AsciiOnly(s));
    AsciiOnlyShape(s);
    LowerShape(AsciiOnly(s));
    assert AllAscii(t1) && NoUpper(t1);
    var t2 := Strip(t1);
    StrippedChars(t1);
    CollapseChars(t2);
    CollapseCollapsed(t2);
    if t2 != [] {
      CollapseLast(t2);
    }
  }

  /** Stripping keeps ASCII-only and lower-case strings so. */
  lemma StrippedChars(s: string)
    ensures AllAscii(s) ==> AllAscii(Strip(s))
    ensures NoUpper(s) ==> NoUpper(Strip(s))
  {
    var i, j := StripSlice(s);
    var r := Strip(s);
    forall k | 0 <= k < |r| ensures r[k] == s[i + k] { }
  }

  /** `normalizar_nome` is idempotent. */
  lemma NormalizeIdempotent(s: string)
    ensures NormalizeName(NormalizeName(s)) == NormalizeName(s)
  {
    var r := NormalizeName(s);
    NormalizeShape(s);
    AsciiOnlyShape(r);
    LowerShape(r);
    assert Lower(r) == r;
    StripTrimmed(r);
    CollapseFixed(r);
  }

  /** The name is empty exactly when the input has no visible ASCII character: the
      condition under which the melting raises `ValueError` (lines 32-33). */
  lemma NormalizeEmpty(s: string)
    ensures NormalizeName(s) == [] <==> Blank(s)
  {
    var t0 := AsciiOnly(s);
    AsciiOnlyBlank(s);
    var t1 := Lower(t0);
    LowerShape(t0);
    StripEmpty(t1);
    CollapseCollapsed(Strip(t1));
    assert AllSpace(t1) <==> AllSpace(t0);
  }

  // ---------------------------------------------------------------------------------
  // The microregion columns (line 17)
  // ---------------------------------------------------------------------------------

  /** `re.match(r"^[1-6]\.[1-3]$", c)`: a digit 1-6, a dot, a digit 1-3, and then the end
      of the string or a final line break (Python's `$`). */
  predicate IsMicroregionColumn(c: string) {
    (|c| == 3 || (|c| == 4 && c[3] == '\n'))
    && '1' <= c[0] <= '6' && c[1] == '.' && '1' <= c[2] <= '3'
  }

  /** The eighteen microregions of Recife. */
  const Microregions: set<string> := {
    "1.1", "1.2", "1.3", "2.1", "2.2", "2.3", "3.1", "3.2", "3.3",
    "4.1", "4.2", "4.3", "5.1", "5.2", "5.3", "6.1", "6.2", "6.3"
  }

  /** The pattern accepts the eighteen microregion names, each also with a line break
      after it, and nothing else. */
  lemma ColumnPattern(c: string)
    ensures IsMicroregionColumn(c) <==> c in Microregions || (|c| == 4 && c[3] == '\n' && c[..3] in Microregions)
  {
    if |c| >= 3 {
      var p := c[..3];
      assert p == [c[0], c[1], c[2]];
      if |c| == 3 {
        assert c == p;
      }
    }
  }

  /** The list comprehension of line 17: the matching field names, in order. */
  function SelectColumns(fieldnames: seq<string>): (cols: seq<string>)
    ensures forall k | 0 <= k < |cols| :: IsMicroregionColumn(cols[k]) && cols[k] in fieldnames
    ensures forall c | c in fieldnames && IsMicroregionColumn(c) :: c in cols
  {
    if fieldnames == [] then []
    else
      var rest := SelectColumns(fieldnames[1..]);
      if IsMicroregionColumn(fieldnames[0]) then [fieldnames[0]] + rest else rest
  }

  // ---------------------------------------------------------------------------------
  // derreter_bairros_recife (lines 14-41)
  // ---------------------------------------------------------------------------------

  /** A `csv.DictReader` row: a field missing from a short row is absent (its value is
      `None`, which the melting skips as it skips an empty cell). */
  type CsvRow = map<string, string>

  /** `row[microrregiao]`, with `None` read as the empty cell. */
  function Cell(row: CsvRow, column: string): string {
    if column in row then row[column] else ""
  }

  /** The stripped, non-empty entries of a list of cell parts. */
  function Kept(parts: seq<string>): seq<string> {
    if parts == [] then []
    else (if Strip(parts[0]) != [] then [Strip(parts[0])] else []) + Kept(parts[1..])
  }

  /** Line 27: `[b.strip() for b in celula.split(",") if b.strip()]`. */
  function Pieces(cell: string): seq<string> {
    Kept(Split(cell, ","))
  }

  /** A neighbourhood entry read from a cell, with the column it was read from. */
  datatype Assignment = Assignment(piece: string, column: string)

  /** The pieces of one cell, each with the cell's column. */
  function Tagged(pieces: seq<string>, column: string): (r: seq<Assignment>) {
    if pieces == [] then [] else [Assignment(pieces[0], column)] + Tagged(pieces[1..], column)
  }

  function CellAssignments(row: CsvRow, column: string): seq<Assignment> {
    Tagged(Pieces(Cell(row, column)), column)
  }

  /** The entries `f` gives each of `xs`, in order. */
  function Concat<T>(xs: seq<T>, f: T -> seq<Assignment>): seq<Assignment> {
    if xs == [] then [] else Concat(xs[..|xs| - 1], f) + f(xs[|xs| - 1])
  }

  function CellsOf(row: CsvRow): string -> seq<Assignment> {
    column => CellAssignments(row, column)
  }

  function RowsOf(columns: seq<string>): CsvRow -> seq<Assignment> {
    row => RowAssignments(columns, row)
  }

  /** The entries of one row, column by column. */
  function RowAssignments(columns: seq<string>, row: CsvRow): seq<Assignment> {
    Concat(columns, CellsOf(row))
  }

  /** The entries of the whole table, row by row. */
  function AllAssignments(columns: seq<string>, rows: seq<CsvRow>): seq<Assignment> {
    Concat(rows, RowsOf(columns))
  }

  /** Lines 29-39 for one entry: an empty name is an error; a name already present keeps
      its microregion; a new name gets the entry's column. */
  function Assign(d: map<string, string>, a: Assignment): Result<map<string, string>> {
    var n := NormalizeName(a.piece);
    if n == [] then Err(ValueError(a.column))
    else if n in d then Ok(d)
    else Ok(d[n := a.column])
  }

  /** The dictionary after the given entries, in order, or the first error. */
  function Melted(es: seq<Assignment>): Result<map<string, string>> {
    if es == [] then Ok(map[])
    else
      match Melted(es[..|es| - 1])
      case Err(e) => Err(e)
      case Ok(d) => Assign(d, es[|es| - 1])
  }

  /** `derreter_bairros_recife` over the field names and rows of the table. */
  method Melt(fieldnames: seq<string>, rows: seq<CsvRow>) returns (result: Result<map<string, string>>)
    ensures result == Melted(AllAssignments(SelectColumns(fieldnames), rows))
  {
    var columns := SelectColumns(fieldnames);
    var d: map<string, string> := map[];
    ghost var done: seq<Assignment> := [];
    for i := 0 to |rows|
      invariant done == AllAssignments(columns, rows[..i])
      invariant Melted(done) == Ok(d)
    {
      ConcatStep(rows, RowsOf(columns), i);
      ghost var done' := done + RowAssignments(columns, rows[i]);
      var r := MeltRow(d, columns, rows[i], done);
      if r.Err? {
        ConcatPrefix(rows, RowsOf(columns), i + 1);
        MeltedErrStays(done', AllAssignments(columns, rows));
        return r;
      }
      d := r.value;
      done := done';
    }
    assert rows[..|rows|] == rows;
    result := Ok(d);
  }

  /** Lines 23-39 over the cells of one row, from the dictionary read so far. */
  method MeltRow(d: map<string, string>, columns: seq<string>, row: CsvRow, ghost done: seq<Assignment>)
    returns (r: Result<map<string, string>>)
    requires Melted(done) == Ok(d)
    ensures r == Melted(done + RowAssignments(columns, row))
  {
    var dict := d;
    ghost var prefix := done;
    RowStart(columns, row, done);
    for j := 0 to |columns|
      invariant prefix == done + RowAssignments(columns[..j], row)
      invariant Melted(prefix) == Ok(dict)
    {
      var column := columns[j];
      var cell := Cell(row, column);
      ghost var prefix' := prefix + Tagged(Pieces(cell), column);
      RowNext(columns, row, j, done, prefix, cell, prefix');
      if cell != "" {
        var s := MeltCell(dict, Pieces(cell), column, prefix);
        if s.Err? {
          RowStops(columns, row, j, done, prefix', s);
          return s;
        }
        dict := s.value;
      } else {
        PiecesOfEmpty();
        assert prefix' == prefix;
      }
      prefix := prefix';
    }
    RowEnd(columns, row, done, prefix);
    r := Ok(dict);
  }

  lemma RowStart(columns: seq<string>, row: CsvRow, done: seq<Assignment>)
    ensures done == done + RowAssignments(columns[..0], row)
  {
    assert columns[..0] == [];
  }

  lemma RowNext(columns: seq<string>, row: CsvRow, j: nat, done: seq<Assignment>, prefix: seq<Assignment>,
                cell: string, prefix': seq<Assignment>)
    requires j < |columns| && cell == Cell(row, columns[j])
    requires prefix == done + RowAssignments(columns[..j], row)
    requires prefix' == prefix + Tagged(Pieces(cell), columns[j])
    ensures prefix' == done + RowAssignments(columns[..j + 1], row)
  {
    var f := CellsOf(row);
    var a, b := RowAssignments(columns[..j], row), Tagged(Pieces(cell), columns[j]);
    ConcatStep(columns, f, j);
    assert f(columns[j]) == b;
    assert RowAssignments(columns[..j + 1], row) == a + b;
    AppendAssoc(done, a, b);
  }

  lemma AppendAssoc(x: seq<Assignment>, y: seq<Assignment>, z: seq<Assignment>)
    ensures (x + y) + z == x + (y + z)
  {
  }

  lemma RowStops(columns: seq<string>, row: CsvRow, j: nat, done: seq<Assignment>, prefix': seq<Assignment>,
                 s: Result<map<string, string>>)
    requires j < |columns| && prefix' == done + RowAssignments(columns[..j + 1], row)
    requires s == Melted(prefix') && s.Err?
    ensures s == Melted(done + RowAssignments(columns, row))
  {
    ConcatPrefix(columns, CellsOf(row), j + 1);
    MeltedErrStays(prefix', done + RowAssignments(columns, row));
  }

  lemma RowEnd(columns: seq<string>, row: CsvRow, done: seq<Assignment>, prefix: seq<Assignment>)
    requires prefix == done + RowAssignments(columns[..|columns|], row)
    ensures prefix == done + RowAssignments(columns, row)
  {
    assert columns[..|columns|] == columns;
  }

  /** Lines 29-39 over the pieces of one cell, from the dictionary read so far. */
  method MeltCell(d: map<string, string>, bairros: seq<string>, column: string, ghost done: seq<Assignment>)
    returns (r: Result<map<string, string>>)
    requires Melted(done) == Ok(d)
    ensures r == Melted(done + Tagged(bairros, column))
  {
    var dict := d;
    ghost var prefix := done;
    CellStart(bairros, column, done);
    for k := 0 to |bairros|
      invariant prefix == done + Tagged(bairros[..k], column)
      invariant Melted(prefix) == Ok(dict)
    {
      var name := NormalizeName(bairros[k]);
      ghost var a := Assignment(bairros[k], column);
      ghost var prefix' := prefix + [a];
      CellNext(bairros, column, k, done, prefix, prefix');
      if name == [] {
        AssignFails(prefix, dict, a, name);
        CellStops(bairros, column, k, done, prefix');
        return Err(ValueError(column));
      }
      ghost var d0 := dict;
      if name in dict {
        // lines 35-37: the microregion already recorded stays, whichever it is
      } else {
        dict := dict[name := column];
      }
      AssignStep(prefix, d0, a, name, dict);
      prefix := prefix';
    }
    CellEnd(bairros, column, done, prefix);
    r := Ok(dict);
  }

  lemma CellStart(bairros: seq<string>, column: string, done: seq<Assignment>)
    ensures done == done + Tagged(bairros[..0], column)
  {
    assert bairros[..0] == [];
  }

  lemma CellNext(bairros: seq<string>, column: string, k: nat, done: seq<Assignment>, prefix: seq<Assignment>,
                 prefix': seq<Assignment>)
    requires k < |bairros|
    requires prefix == done + Tagged(bairros[..k], column)
    requires prefix' == prefix + [Assignment(bairros[k], column)]
    ensures prefix' == done + Tagged(bairros[..k + 1], column)
  {
    TaggedSnoc(bairros, column, k);
    AppendAssoc(done, Tagged(bairros[..k], column), [Assignment(bairros[k], column)]);
  }

  lemma CellStops(bairros: seq<string>, column: string, k: nat, done: seq<Assignment>, prefix': seq<Assignment>)
    requires k < |bairros| && prefix' == done + Tagged(bairros[..k + 1], column)
    requires Melted(prefix') == Err(ValueError(column))
    ensures Melted(done + Tagged(bairros, column)) == Err(ValueError(column))
  {
    TaggedPrefix(bairros, column, k + 1);
    MeltedErrStays(prefix', done + Tagged(bairros, column));
  }

  lemma CellEnd(bairros: seq<string>, column: string, done: seq<Assignment>, prefix: seq<Assignment>)
    requires prefix == done + Tagged(bairros[..|bairros|], column)
    ensures prefix == done + Tagged(bairros, column)
  {
    assert bairros[..|bairros|] == bairros;
  }

  /** An entry whose name is empty raises. */
  lemma AssignFails(done: seq<Assignment>, d: map<string, string>, a: Assignment, name: string)
    requires Melted(done) == Ok(d) && name == NormalizeName(a.piece) && name == []
    ensures Melted(done + [a]) == Err(ValueError(a.column))
  {
    assert (done + [a])[..|done|] == done;
  }

  /** An entry with a name records its column unless the name is already there. */
  lemma AssignStep(done: seq<Assignment>, d: map<string, string>, a: Assignment, name: string,
                   d': map<string, string>)
    requires Melted(done) == Ok(d) && name == NormalizeName(a.piece) && name != []
    requires d' == if name in d then d else d[name := a.column]
    ensures Melted(done + [a]) == Ok(d')
  {
    assert (done + [a])[..|done|] == done;
  }

  /** An empty cell has no entries, so skipping it (line 25) changes nothing. */
  lemma PiecesOfEmpty()
    ensures Pieces("") == []
  {
    assert Split("", ",") == [""];
    assert Strip("") == "";
  }

  lemma {:induction false} TaggedSnoc(pieces: seq<string>, column: string, k: nat)
    requires k < |pieces|
    ensures Tagged(pieces[..k + 1], column) == Tagged(pieces[..k], column) + [Assignment(pieces[k], column)]
  {
    if k > 0 {
      TaggedSnoc(pieces[1..], column, k - 1);
      assert pieces[..k + 1][1..] == pieces[1..][..k];
      assert pieces[..k][1..] == pieces[1..][..k - 1];
    }
  }

  lemma {:induction false} TaggedPrefix(pieces: seq<string>, column: string, k: nat)
    requires k <= |pieces|
    ensures Tagged(pieces[..k], column) <= Tagged(pieces, column)
  {
    if k > 0 {
      TaggedPrefix(pieces[1..], column, k - 1);
      assert pieces[..k][1..] == pieces[1..][..k - 1];
    }
  }

  /** One more element adds its entries at the end. */
  lemma ConcatStep<T>(xs: seq<T>, f: T -> seq<Assignment>, j: nat)
    requires j < |xs|
    ensures Concat(xs[..j + 1], f) == Concat(xs[..j], f) + f(xs[j])
  {
    assert xs[..j + 1][..j] == xs[..j];
  }

  /** The entries of a prefix are a prefix of the entries. */
  lemma {:induction false} ConcatPrefix<T>(xs: seq<T>, f: T -> seq<Assignment>, j: nat)
    requires j <= |xs|
    ensures Concat(xs[..j], f) <= Concat(xs, f)
  {
    if j < |xs| {
      var init := xs[..|xs| - 1];
      assert init[..j] == xs[..j];
      ConcatPrefix(init, f, j);
    } else {
      assert xs[..j] == xs;
    }
  }

  /** Once an entry raises, the entries after it are never read. */
  lemma {:induction false} MeltedErrStays(p: seq<Assignment>, q: seq<Assignment>)
    requires p <= q && Melted(p).Err?
    ensures Melted(q) == Melted(p)
    decreases |q|
  {
    if |q| > |p| {
      var init := q[..|q| - 1];
      assert p <= init;
      MeltedErrStays(p, init);
    } else {
      assert p == q;
    }
  }

  // ---------------------------------------------------------------------------------
  // What the melting promises
  // ---------------------------------------------------------------------------------

  /** The normalised names of the entries. */
  function NamesOf(es: seq<Assignment>): set<string> {
    if es == [] then {} else NamesOf(es[..|es| - 1]) + {NormalizeName(es[|es| - 1].piece)}
  }

  /** With no empty name among the entries the melting succeeds. */
  lemma {:induction false} MeltedOk(es: seq<Assignment>)
    requires forall i | 0 <= i < |es| :: NormalizeName(es[i].piece) != []
    ensures Melted(es).Ok?
  {
    if es != [] {
      var init := es[..|es| - 1];
      assert forall i | 0 <= i < |init| :: init[i] == es[i];
      MeltedOk(init);
    }
  }

  /** The first entry with an empty name raises `ValueError` with its column (lines 32-33). */
  lemma MeltedFirstError(es: seq<Assignment>, i: nat)
    requires i < |es| && NormalizeName(es[i].piece) == []
    requires forall j | 0 <= j < i :: NormalizeName(es[j].piece) != []
    ensures Melted(es) == Err(ValueError(es[i].column))
  {
    var p := es[..i + 1];
    assert p[..i] == es[..i];
    assert forall j | 0 <= j < i :: es[..i][j] == es[j];
    MeltedOk(es[..i]);
    MeltedErrStays(p, es);
  }

  /** The keys are exactly the normalised names of the entries. */
  lemma {:induction false} MeltedKeys(es: seq<Assignment>)
    requires Melted(es).Ok?
    ensures Melted(es).value.Keys == NamesOf(es)
  {
    if es != [] {
      MeltedKeys(es[..|es| - 1]);
    }
  }

  /** First assignment wins (lines 35-39): the microregion of a name is the column of the
      first entry with that name. */
  lemma {:induction false} MeltedFirstWins(es: seq<Assignment>, n: string) returns (i: nat)
    requires Melted(es).Ok? && n in Melted(es).value
    ensures i < |es| && NormalizeName(es[i].piece) == n && Melted(es).value[n] == es[i].column
    ensures forall j | 0 <= j < i :: NormalizeName(es[j].piece) != n
  {
    var init := es[..|es| - 1];
    var d := Melted(init).value;
    if n in d {
      i := MeltedFirstWins(init, n);
      assert es[i] == init[i];
      assert forall j | 0 <= j < i :: es[j] == init[j];
    } else {
      i := |es| - 1;
      MeltedKeys(init);
      forall j | 0 <= j < i ensures NormalizeName(es[j].piece) != n {
        assert es[j] == init[j];
        NameInNames(init, j);
      }
    }
  }

  lemma {:induction false} NameInNames(es: seq<Assignment>, j: nat)
    requires j < |es|
    ensures NormalizeName(es[j].piece) in NamesOf(es)
  {
    if j < |es| - 1 {
      var init := es[..|es| - 1];
      assert es[j] == init[j];
      NameInNames(init, j);
    }
  }

  /** Once a name is a key its microregion never changes: the dictionary after a prefix
      of the entries is part of the final one. */
  lemma {:induction false} MeltedKeeps(es: seq<Assignment>, k: nat)
    requires k <= |es| && Melted(es).Ok?
    ensures Melted(es[..k]).Ok?
    ensures forall n | n in Melted(es[..k]).value :: n in Melted(es).value && Melted(es).value[n] == Melted(es[..k]).value[n]
  {
    if k < |es| {
      var init := es[..|es| - 1];
      assert init[..k] == es[..k];
      MeltedKeeps(init, k);
    } else {
      assert es[..k] == es;
    }
  }

  /** Every entry of the table comes from a selected column. */
  lemma TableColumns(columns: seq<string>, rows: seq<CsvRow>, i: nat)
    requires i < |AllAssignments(columns, rows)|
    ensures AllAssignments(columns, rows)[i].column in columns
  {
    var all := AllAssignments(columns, rows);
    var r, m := ConcatIndex(rows, RowsOf(columns), i);
    var row := RowsOf(columns)(rows[r]);
    assert row == Concat(columns, CellsOf(rows[r]));
    var c, q := ConcatIndex(columns, CellsOf(rows[r]), m);
    TaggedColumn(Pieces(Cell(rows[r], columns[c])), columns[c], q);
  }

  /** Entry `i` of a concatenation is entry `m` of the part of element `r`. */
  lemma {:induction false} ConcatIndex<T>(xs: seq<T>, f: T -> seq<Assignment>, i: nat) returns (r: nat, m: nat)
    requires i < |Concat(xs, f)|
    ensures r < |xs| && m < |f(xs[r])| && Concat(xs, f)[i] == f(xs[r])[m]
  {
    var init := xs[..|xs| - 1];
    var head := Concat(init, f);
    if i < |head| {
      r, m := ConcatIndex(init, f, i);
      assert init[r] == xs[r];
    } else {
      r, m := |xs| - 1, i - |head|;
    }
  }

  lemma {:induction false} TaggedColumn(pieces: seq<string>, column: string, q: nat)
    requires q < |Tagged(pieces, column)|
    ensures Tagged(pieces, column)[q].column == column
  {
    if q > 0 {
      TaggedColumn(pieces[1..], column, q - 1);
    }
  }

  /** Every microregion in a successful result is a column the pattern selected. */
  lemma MeltValues(fieldnames: seq<string>, rows: seq<CsvRow>)
    requires Melted(AllAssignments(SelectColumns(fieldnames), rows)).Ok?
    ensures var d := Melted(AllAssignments(SelectColumns(fieldnames), rows)).value;
      forall n | n in d :: IsMicroregionColumn(d[n]) && d[n] in fieldnames
  {
    var columns := SelectColumns(fieldnames);
    var es := AllAssignments(columns, rows);
    var d := Melted(es).value;
    forall n | n in d ensures IsMicroregionColumn(d[n]) && d[n] in fieldnames {
      var i := MeltedFirstWins(es, n);
      TableColumns(columns, rows, i);
    }
  }

  /** The pieces of a cell are non-empty, stripped, and hold no comma (line 27). */
  lemma PiecesShape(cell: string)
    ensures forall k | 0 <= k < |Pieces(cell)| :: Pieces(cell)[k] != [] && Trimmed(Pieces(cell)[k]) && ',' !in Pieces(cell)[k]
  {
    var parts := Split(cell, ",");
    SplitPiecesFree(cell, ",");
    forall k | 0 <= k < |parts| ensures ',' !in parts[k] {
      forall i | 0 <= i < |parts[k]| ensures parts[k][i] != ',' {
        CommaContained(parts[k], i);
      }
    }
    KeptShape(parts);
  }

  lemma CommaContained(x: string, i: nat)
    requires i < |x|
    ensures x[i] == ',' ==> Contains(x, ",")
  {
    if x[i] == ',' {
      assert "," <= x[i..];
    }
  }

  lemma {:induction false} KeptShape(parts: seq<string>)
    requires forall k | 0 <= k < |parts| :: ',' !in parts[k]
    ensures forall k | 0 <= k < |Kept(parts)| :: Kept(parts)[k] != [] && Trimmed(Kept(parts)[k]) && ',' !in Kept(parts)[k]
  {
    if parts != [] {
      KeptShape(parts[1..]);
      var x := parts[0];
      var i, j := StripSlice(x);
      assert ',' !in x[i..j];
      var h := if Strip(x) != [] then [Strip(x)] else [];
      var r := Kept(parts);
      assert r == h + Kept(parts[1..]);
      forall k | 0 <= k < |r| ensures r[k] != [] && Trimmed(r[k]) && ',' !in r[k] {
        if k >= |h| {
          assert r[k] == Kept(parts[1..])[k - |h|];
        }
      }
    }
  }
}
