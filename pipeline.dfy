/** The conversion from the extracted lines to the five cleaned tables
    (conversion.py lines 19-101), with the ways it stops. */
module Pipeline {
  import opened Results
  import opened Cleaning
  import opened Scanner
  import opened Rows
  import opened Sections
  import opened Labels

  /** The five tables after `clean_labels`: `ops_df`, `bs_df`, `cf_df`,
      `seg_df` and `cat_df`. */
  datatype Statements = Statements(
    ops: seq<CleanRow>, bs: seq<CleanRow>, cf: seq<CleanRow>, seg: seq<CleanRow>, cat: seq<CleanRow>)

  /** Lines 19-101 on the extracted lines. It succeeds exactly when, once the
      lines are cleaned, every number balances its parentheses, every header
      occurs and some line has two numbers. */
  function Convert(rawLines: seq<string>): (r: Result<Statements, Failure>)
    ensures var lines := CleanedLines(rawLines);
      r.Ok? <==> AllAccepted(lines) && AllHeadersOccur(lines) && SomeLineHasNumbers(lines)
  {
    ConvertOutcome(CleanedLines(rawLines));
    ConvertLines(CleanedLines(rawLines))
  }

  /** Lines 38-101 on the cleaned lines. A number `to_float` rejects stops
      the row loop first; then the headers are looked up; a table without
      rows has no `line_idx` column, so the first `slice_df` fails. */
  function ConvertLines(lines: seq<string>): Result<Statements, Failure> {
    match RowsOf(lines)
    case Err(f) => Err(f)
    case Ok(rows) =>
      match LocateSections(lines)
      case Err(f) => Err(f)
      case Ok(st) =>
        if rows == [] then Err(NoRows)
        else
          Ok(Tabulate(rows, st))
  }

  /** Lines 77-101: the five slices, each through `clean_labels`. */
  function Tabulate(rows: seq<Row>, st: Starts): Statements {
    var t := SliceSections(rows, st);
    Statements(CleanLabels(t.ops), CleanLabels(t.bs), CleanLabels(t.cf), CleanLabels(t.seg), CleanLabels(t.cat))
  }

  /** What the row loop of lines 38-53 leaves in `rows`: each row is the row
      of the line its `line_idx` names, the rows are in line order, and every
      line `parse_line` accepts has its row. */
  ghost predicate BuiltFrom(rows: seq<Row>, lines: seq<string>) {
    (forall k :: 0 <= k < |rows| ==> rows[k].lineIdx < |lines| && IsRowOf(rows[k], lines[rows[k].lineIdx])) &&
    Ascending(rows) &&
    (forall i :: 0 <= i < |lines| && ParseLine(lines[i]).Some? ==> i in LineIndices(rows))
  }

  /** The `label_clean` of the row of line `i`, when `parse_line` accepts it. */
  ghost function LineLabel(lines: seq<string>, i: nat): string
    requires i < |lines| && ParseLine(lines[i]).Some?
  {
    LabelClean(ParseLine(lines[i]).value.name)
  }

  /** One cleaned table taken from the lines `[lo, hi)`:
      - each of its rows is the row of the cleaned line its `line_idx` names,
        inside the range, with its own `label_clean`;
      - no two of its rows share a `label_clean`, and they are in line order;
      - every line of the range that `parse_line` accepts has its
        `label_clean` in the table, so the table is empty only when no line
        of the range has two numbers;
      - the row kept for a label is the first line of the range with that
        label. */
  ghost predicate TableOf(r: seq<CleanRow>, lines: seq<string>, lo: nat, hi: nat) {
    (forall x :: x in r ==>
      lo <= x.row.lineIdx < hi && x.row.lineIdx < |lines| && IsRowOf(x.row, lines[x.row.lineIdx]) &&
      HasOwnLabel(x)) &&
    (forall i, j :: 0 <= i < j < |r| ==> r[i].labelClean != r[j].labelClean) &&
    (forall i, j :: 0 <= i < j < |r| ==> r[i].row.lineIdx < r[j].row.lineIdx) &&
    (forall i :: lo <= i < hi && i < |lines| && ParseLine(lines[i]).Some? ==> LineLabel(lines, i) in Keys(r)) &&
    (forall x, j :: x in r && lo <= j < x.row.lineIdx && j < |lines| && ParseLine(lines[j]).Some? ==>
      LineLabel(lines, j) != x.labelClean)
  }

  /** The row loop leaves such a table. */
  lemma RowsOfBuilt(lines: seq<string>)
    requires RowsOf(lines).Ok?
    ensures BuiltFrom(RowsOf(lines).value, lines)
  {
    RowsOfTable(lines);
  }

  /** The cleaned slice of a table built from `lines`. */
  lemma CleanSliceIsTable(lines: seq<string>, rows: seq<Row>, lo: nat, hi: nat)
    requires BuiltFrom(rows, lines)
    ensures TableOf(CleanLabels(Keep(rows, lo, hi)), lines, lo, hi)
  {
    var s := Keep(rows, lo, hi);
    KeepMembers(rows, lo, hi);
    KeepAscending(rows, lo, hi);
    CleanLabelsSpec(s);
    SliceSound(lines, rows, lo, hi);
    SliceInOrder(s);
    SliceComplete(lines, rows, lo, hi);
    SliceFirstWins(lines, rows, lo, hi);
  }

  lemma SliceSound(lines: seq<string>, rows: seq<Row>, lo: nat, hi: nat)
    requires BuiltFrom(rows, lines)
    ensures var r := CleanLabels(Keep(rows, lo, hi));
      forall x :: x in r ==> lo <= x.row.lineIdx < hi && x.row.lineIdx < |lines| && IsRowOf(x.row, lines[x.row.lineIdx])
  {
    var s := Keep(rows, lo, hi);
    KeepMembers(rows, lo, hi);
    CleanLabelsSpec(s);
    var w := WithLabelClean(s);
    forall x | x in CleanLabels(s)
      ensures lo <= x.row.lineIdx < hi && x.row.lineIdx < |lines| && IsRowOf(x.row, lines[x.row.lineIdx])
    {
      var i :| 0 <= i < |w| && w[i] == x && IsFirstOf(w, i);
      assert x.row == s[i] && s[i] in s;
      var k :| 0 <= k < |rows| && rows[k] == s[i];
    }
  }

  /** Cleaning a table in line order leaves it in line order. */
  lemma SliceInOrder(s: seq<Row>)
    requires Ascending(s)
    ensures var r := CleanLabels(s); forall i, j :: 0 <= i < j < |r| ==> r[i].row.lineIdx < r[j].row.lineIdx
  {
    var w := WithLabelClean(s);
    var pos := DropDuplicatesInOrder(w);
    var r := CleanLabels(s);
    forall i, j | 0 <= i < j < |r| ensures r[i].row.lineIdx < r[j].row.lineIdx {
      assert r[i].row == s[pos[i]] && r[j].row == s[pos[j]];
    }
  }

  /** A row of the table inside the range sits in the slice. */
  lemma InSlice(rows: seq<Row>, lo: nat, hi: nat, k: nat) returns (m: nat)
    requires k < |rows| && lo <= rows[k].lineIdx < hi
    ensures m < |Keep(rows, lo, hi)| && Keep(rows, lo, hi)[m] == rows[k]
  {
    KeepMembers(rows, lo, hi);
    var s := Keep(rows, lo, hi);
    assert rows[k] in s;
    m :| 0 <= m < |s| && s[m] == rows[k];
  }

  /** The row of line `i` of the range sits in the slice. */
  lemma RowInSlice(lines: seq<string>, rows: seq<Row>, lo: nat, hi: nat, i: nat) returns (m: nat)
    requires BuiltFrom(rows, lines)
    requires lo <= i < hi && i < |lines| && ParseLine(lines[i]).Some?
    ensures var s := Keep(rows, lo, hi);
      m < |s| && s[m].lineIdx == i && LabelClean(s[m].name) == LineLabel(lines, i)
  {
    assert i in LineIndices(rows);
    var k :| 0 <= k < |rows| && rows[k].lineIdx == i;
    assert IsRowOf(rows[k], lines[i]);
    m := InSlice(rows, lo, hi, k);
  }

  /** Every row of a table has its label in the cleaned table. */
  lemma CleanKeepsLabels(s: seq<Row>)
    ensures forall m :: 0 <= m < |s| ==> LabelClean(s[m].name) in Keys(CleanLabels(s))
  {
    var w := WithLabelClean(s);
    CleanLabelsSpec(s);
    forall m | 0 <= m < |s| ensures LabelClean(s[m].name) in Keys(CleanLabels(s)) {
      assert w[m] in w;
    }
  }

  /** In a table in line order, no row above a kept row has its label. */
  lemma CleanKeepsFirst(s: seq<Row>, x: CleanRow, m: nat)
    requires Ascending(s) && x in CleanLabels(s) && m < |s| && s[m].lineIdx < x.row.lineIdx
    ensures LabelClean(s[m].name) != x.labelClean
  {
    var w := WithLabelClean(s);
    DropDuplicatesSpec(w);
    var i :| 0 <= i < |w| && w[i] == x && IsFirstOf(w, i);
    assert s[i] == x.row;
    AscendingBefore(s, m, i);
    assert w[m].labelClean != w[i].labelClean;
  }

  /** Every line of the range that `parse_line` accepts has its label in the
      cleaned slice. */
  lemma SliceComplete(lines: seq<string>, rows: seq<Row>, lo: nat, hi: nat)
    requires BuiltFrom(rows, lines)
    ensures var r := CleanLabels(Keep(rows, lo, hi));
      forall i :: lo <= i < hi && i < |lines| && ParseLine(lines[i]).Some? ==> LineLabel(lines, i) in Keys(r)
  {
    var s := Keep(rows, lo, hi);
    CleanKeepsLabels(s);
    forall i | lo <= i < hi && i < |lines| && ParseLine(lines[i]).Some?
      ensures LineLabel(lines, i) in Keys(CleanLabels(s))
    {
      var m := RowInSlice(lines, rows, lo, hi, i);
    }
  }

  /** No line of the range above a kept row has that row's label. */
  lemma SliceFirstWins(lines: seq<string>, rows: seq<Row>, lo: nat, hi: nat)
    requires BuiltFrom(rows, lines)
    ensures var r := CleanLabels(Keep(rows, lo, hi));
      forall x, j :: x in r && lo <= j < x.row.lineIdx && j < |lines| && ParseLine(lines[j]).Some? ==>
        LineLabel(lines, j) != x.labelClean
  {
    var s := Keep(rows, lo, hi);
    KeepAscending(rows, lo, hi);
    SliceSound(lines, rows, lo, hi);
    forall x, j | x in CleanLabels(s) && lo <= j < x.row.lineIdx && j < |lines| && ParseLine(lines[j]).Some?
      ensures LineLabel(lines, j) != x.labelClean
    {
      var m := RowInSlice(lines, rows, lo, hi, j);
      CleanKeepsFirst(s, x, m);
    }
  }

  /** `to_float` accepts the numbers of every line that has two. */
  ghost predicate AllAccepted(lines: seq<string>) {
    forall i :: 0 <= i < |lines| ==> Accepted(lines[i])
  }

  /** Some line has two numbers, so the table of line 53 is not empty. */
  ghost predicate SomeLineHasNumbers(lines: seq<string>) {
    exists i :: 0 <= i < |lines| && |Tokens(lines[i])| >= 2
  }

  /** Lines 38-82 on the cleaned lines succeed exactly when every number
      balances its parentheses, every header occurs and some line has two
      numbers. Otherwise the first check in source order that fails decides
      the error: the first line whose numbers do not balance, then the first
      header of the dict that no line contains, then the empty table. */
  lemma ConvertOutcome(lines: seq<string>)
    ensures ConvertLines(lines).Ok? <==> AllAccepted(lines) && AllHeadersOccur(lines) && SomeLineHasNumbers(lines)
    ensures !AllAccepted(lines) ==>
      var r := ConvertLines(lines);
      r.Err? && r.error.NotAFloat? && r.error.lineIdx < |lines| && !Accepted(lines[r.error.lineIdx]) &&
      r.error.text == Rejected(lines[r.error.lineIdx]) &&
      forall j :: 0 <= j < r.error.lineIdx ==> Accepted(lines[j])
    ensures AllAccepted(lines) && !AllHeadersOccur(lines) ==>
      ConvertLines(lines) == Err(SectionHeaderNotFound(FirstMissing(lines)))
    ensures AllAccepted(lines) && AllHeadersOccur(lines) && !SomeLineHasNumbers(lines) ==>
      ConvertLines(lines) == Err(NoRows)
  {
    RowsOfAccepted(lines);
    LocateSectionsSpec(lines);
    var rs, loc := RowsOf(lines), LocateSections(lines);
    if rs.Err? {
      RowsOfRejected(lines);
      assert ConvertLines(lines) == Err(rs.error);
    } else {
      RowsOfEmpty(lines);
      if loc.Err? {
        assert ConvertLines(lines) == Err(loc.error);
      } else if rs.value == [] {
        assert ConvertLines(lines) == Err(NoRows);
      } else {
        var i :| 0 <= i < |lines| && !(|Tokens(lines[i])| < 2);
        assert ConvertLines(lines).Ok?;
      }
    }
  }

  /** On success each statement's table is the cleaned table of the lines
      between its header and the next bound of lines 77-82. */
  lemma ConvertTables(rawLines: seq<string>)
    requires Convert(rawLines).Ok?
    ensures var lines := CleanedLines(rawLines);
      var st := LocateSections(lines).value; var out := Convert(rawLines).value;
      TableOf(out.ops, lines, st.operations, st.balanceSheet) &&
      TableOf(out.bs, lines, st.balanceSheet, st.cashFlows) &&
      TableOf(out.cf, lines, st.cashFlows, Sentinel) &&
      TableOf(out.seg, lines, st.segmentSales, st.categorySales) &&
      TableOf(out.cat, lines, st.categorySales, st.balanceSheet)
  {
    var lines := CleanedLines(rawLines);
    var rows, st := ConvertParts(rawLines);
    RowsOfBuilt(lines);
    TabulateTables(lines, rows, st);
  }

  /** What a successful conversion is made of. */
  lemma ConvertParts(rawLines: seq<string>) returns (rows: seq<Row>, st: Starts)
    requires Convert(rawLines).Ok?
    ensures var lines := CleanedLines(rawLines);
      RowsOf(lines).Ok? && RowsOf(lines).value == rows && LocateSections(lines).Ok? && LocateSections(lines).value == st &&
      Convert(rawLines).value == Tabulate(rows, st)
  {
    var lines := CleanedLines(rawLines);
    assert ConvertLines(lines).Ok?;
    match RowsOf(lines)
    case Ok(r) =>
      match LocateSections(lines)
      case Ok(s) =>
        rows, st := r, s;
        assert ConvertLines(lines) == Ok(Tabulate(rows, st));
  }

  lemma TabulateTables(lines: seq<string>, rows: seq<Row>, st: Starts)
    requires BuiltFrom(rows, lines)
    ensures var out := Tabulate(rows, st);
      TableOf(out.ops, lines, st.operations, st.balanceSheet) &&
      TableOf(out.bs, lines, st.balanceSheet, st.cashFlows) &&
      TableOf(out.cf, lines, st.cashFlows, Sentinel) &&
      TableOf(out.seg, lines, st.segmentSales, st.categorySales) &&
      TableOf(out.cat, lines, st.categorySales, st.balanceSheet)
  {
    CleanSliceIsTable(lines, rows, st.operations, st.balanceSheet);
    CleanSliceIsTable(lines, rows, st.balanceSheet, st.cashFlows);
    CleanSliceIsTable(lines, rows, st.cashFlows, Sentinel);
    CleanSliceIsTable(lines, rows, st.segmentSales, st.categorySales);
    CleanSliceIsTable(lines, rows, st.categorySales, st.balanceSheet);
  }

  /** The script from the cleaning loop to `clean_labels`: the two loops run
      as methods, the rest as the functions above. */
  method Run(rawLines: seq<string>) returns (res: Result<Statements, Failure>)
    ensures res.Ok? <==> Convert(rawLines).Ok?
    ensures res.Ok? ==> res.value == Convert(rawLines).value
    ensures res.Err? ==> res.error == Convert(rawLines).error
  {
    var lines := CleanLines(rawLines);
    assert lines == CleanedLines(rawLines);
    var built := BuildRows(lines);
    if built.Err? {
      return Err(built.error);
    }
    var rows := built.value;
    var located := LocateSections(lines);
    if located.Err? {
      return Err(located.error);
    }
    if rows == [] {
      return Err(NoRows);
    }
    res := Ok(Tabulate(rows, located.value));
  }
}
