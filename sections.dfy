/** Locating the statements in the cleaned lines and cutting the table into
    them (conversion.py lines 57-82). */
module Sections {
  import opened Text
  import opened Results
  import opened Rows

  /** `i` is a line whose lower-cased text contains the lower-cased keyword. */
  predicate IsHit(lines: seq<string>, keyword: string, i: nat)
    requires i < |lines|
  {
    Contains(Lower(lines[i]), Lower(keyword))
  }

  /** The list comprehension `hits` of line 59, from line `i` on. */
  function HitsFrom(lines: seq<string>, keyword: string, i: nat): (hits: seq<nat>)
    requires i <= |lines|
    ensures forall k :: 0 <= k < |hits| ==> i <= hits[k] < |lines| && IsHit(lines, keyword, hits[k])
    ensures forall k :: 0 <= k < |hits| - 1 ==> hits[k] < hits[k + 1]
    decreases |lines| - i
  {
    if i == |lines| then []
    else if IsHit(lines, keyword, i) then [i] + HitsFrom(lines, keyword, i + 1)
    else HitsFrom(lines, keyword, i + 1)
  }

  /** Every matching line from `i` on is listed. */
  lemma {:induction false} HitsFromComplete(lines: seq<string>, keyword: string, i: nat, j: nat)
    requires i <= j < |lines| && IsHit(lines, keyword, j)
    ensures j in HitsFrom(lines, keyword, i)
    ensures HitsFrom(lines, keyword, i) != [] && HitsFrom(lines, keyword, i)[0] <= j
    decreases j - i
  {
    if i < j {
      HitsFromComplete(lines, keyword, i + 1, j);
    }
  }

  /** `find_idx(keyword)` (lines 58-62): the first hit, or the error naming
      the keyword when there is none. */
  function FindIdx(lines: seq<string>, keyword: string): (r: Result<nat, Failure>)
    ensures r.Ok? ==> r.value < |lines| && IsHit(lines, keyword, r.value)
    ensures r.Err? ==> r.error == SectionHeaderNotFound(keyword)
  {
    var hits := HitsFrom(lines, keyword, 0);
    if hits == [] then Err(SectionHeaderNotFound(keyword)) else Ok(hits[0])
  }

  /** `find_idx` gives the least index of a line that contains the keyword,
      ignoring case, and fails with `SectionHeaderNotFound(keyword)` exactly
      when no line contains it. */
  lemma FindIdxIsLeast(lines: seq<string>, keyword: string)
    ensures FindIdx(lines, keyword).Ok? ==>
      var i := FindIdx(lines, keyword).value;
      i < |lines| && IsHit(lines, keyword, i) &&
      forall j :: 0 <= j < i ==> !IsHit(lines, keyword, j)
    ensures FindIdx(lines, keyword).Err? <==> forall j :: 0 <= j < |lines| ==> !IsHit(lines, keyword, j)
    ensures FindIdx(lines, keyword).Err? ==> FindIdx(lines, keyword).error == SectionHeaderNotFound(keyword)
  {
    var hits := HitsFrom(lines, keyword, 0);
    forall j | 0 <= j < |lines| && IsHit(lines, keyword, j) ensures hits != [] && hits[0] <= j {
      HitsFromComplete(lines, keyword, 0, j);
    }
  }

  /** Some line contains the keyword, ignoring case. */
  ghost predicate Occurs(lines: seq<string>, keyword: string) {
    exists i :: 0 <= i < |lines| && IsHit(lines, keyword, i)
  }

  /** Line `i` is the first that contains the keyword, ignoring case. */
  ghost predicate IsFirstHit(lines: seq<string>, keyword: string, i: nat) {
    i < |lines| && IsHit(lines, keyword, i) && forall j :: 0 <= j < i ==> !IsHit(lines, keyword, j)
  }

  /** `find_idx` succeeds exactly when the keyword occurs, and then gives its
      first line. */
  lemma FindIdxFirst(lines: seq<string>, keyword: string)
    ensures FindIdx(lines, keyword).Ok? <==> Occurs(lines, keyword)
    ensures FindIdx(lines, keyword).Ok? ==> IsFirstHit(lines, keyword, FindIdx(lines, keyword).value)
    ensures FindIdx(lines, keyword).Err? ==> FindIdx(lines, keyword).error == SectionHeaderNotFound(keyword)
  {
    FindIdxIsLeast(lines, keyword);
  }

  const Operations := "STATEMENTS OF OPERATIONS"
  const BalanceSheets := "BALANCE SHEETS"
  const CashFlows := "STATEMENTS OF CASH FLOWS"
  const SegmentSales := "Net sales by reportable segment"
  const CategorySales := "Net sales by category"

  /** The `sections` dict: the first line of each statement. */
  datatype Starts = Starts(operations: nat, balanceSheet: nat, cashFlows: nat, segmentSales: nat, categorySales: nat)

  /** The dict of lines 64-70 from its five look-ups, in its order: the
      first look-up that failed stops the conversion. */
  function Dict(op: Result<nat, Failure>, bs: Result<nat, Failure>, cf: Result<nat, Failure>,
                seg: Result<nat, Failure>, cat: Result<nat, Failure>): Result<Starts, Failure>
  {
    match op
    case Err(f) => Err(f)
    case Ok(o) =>
      match bs
      case Err(f) => Err(f)
      case Ok(b) =>
        match cf
        case Err(f) => Err(f)
        case Ok(c) =>
          match seg
          case Err(f) => Err(f)
          case Ok(sg) =>
            match cat
            case Err(f) => Err(f)
            case Ok(ct) => Ok(Starts(o, b, c, sg, ct))
  }

  /** Lines 64-70: the `sections` dict. It is built exactly when every header
      occurs in the lines, and otherwise it fails naming a header. */
  function LocateSections(lines: seq<string>): (r: Result<Starts, Failure>)
    ensures r.Ok? <==> AllHeadersOccur(lines)
    ensures r.Ok? ==>
      r.value.operations < |lines| && r.value.balanceSheet < |lines| && r.value.cashFlows < |lines| &&
      r.value.segmentSales < |lines| && r.value.categorySales < |lines|
    ensures r.Err? ==>
      r.error.SectionHeaderNotFound? &&
      r.error.keyword in [Operations, BalanceSheets, CashFlows, SegmentSales, CategorySales]
  {
    DictSpec(lines, Operations, BalanceSheets, CashFlows, SegmentSales, CategorySales);
    Dict(FindIdx(lines, Operations), FindIdx(lines, BalanceSheets), FindIdx(lines, CashFlows),
      FindIdx(lines, SegmentSales), FindIdx(lines, CategorySales))
  }

  /** Every header of the dict occurs in the lines. */
  ghost predicate AllHeadersOccur(lines: seq<string>) {
    Occurs(lines, Operations) && Occurs(lines, BalanceSheets) && Occurs(lines, CashFlows) &&
    Occurs(lines, SegmentSales) && Occurs(lines, CategorySales)
  }

  /** The first of `k1`, ..., `k5` that no line contains. */
  ghost function FirstMissingOf(lines: seq<string>, k1: string, k2: string, k3: string, k4: string, k5: string): string {
    if !Occurs(lines, k1) then k1
    else if !Occurs(lines, k2) then k2
    else if !Occurs(lines, k3) then k3
    else if !Occurs(lines, k4) then k4
    else k5
  }

  /** The first header, in the order of the dict, that no line contains. */
  ghost function FirstMissing(lines: seq<string>): string {
    FirstMissingOf(lines, Operations, BalanceSheets, CashFlows, SegmentSales, CategorySales)
  }

  /** The sections are found exactly when every header occurs; each start is
      then the first line of its header, and otherwise the error names the
      first header of the dict that no line contains. */
  lemma LocateSectionsSpec(lines: seq<string>)
    ensures LocateSections(lines).Ok? <==> AllHeadersOccur(lines)
    ensures LocateSections(lines).Ok? ==>
      var st := LocateSections(lines).value;
      IsFirstHit(lines, Operations, st.operations) &&
      IsFirstHit(lines, BalanceSheets, st.balanceSheet) &&
      IsFirstHit(lines, CashFlows, st.cashFlows) &&
      IsFirstHit(lines, SegmentSales, st.segmentSales) &&
      IsFirstHit(lines, CategorySales, st.categorySales)
    ensures LocateSections(lines).Err? ==>
      LocateSections(lines).error == SectionHeaderNotFound(FirstMissing(lines))
  {
    DictSpec(lines, Operations, BalanceSheets, CashFlows, SegmentSales, CategorySales);
  }

  /** The dict built from the look-ups of any five keywords. */
  lemma DictSpec(lines: seq<string>, k1: string, k2: string, k3: string, k4: string, k5: string)
    ensures var r := Dict(FindIdx(lines, k1), FindIdx(lines, k2), FindIdx(lines, k3), FindIdx(lines, k4), FindIdx(lines, k5));
      (r.Ok? <==> Occurs(lines, k1) && Occurs(lines, k2) && Occurs(lines, k3) && Occurs(lines, k4) && Occurs(lines, k5)) &&
      (r.Ok? ==>
        IsFirstHit(lines, k1, r.value.operations) && IsFirstHit(lines, k2, r.value.balanceSheet) &&
        IsFirstHit(lines, k3, r.value.cashFlows) && IsFirstHit(lines, k4, r.value.segmentSales) &&
        IsFirstHit(lines, k5, r.value.categorySales)) &&
      (r.Err? ==> r.error == SectionHeaderNotFound(FirstMissingOf(lines, k1, k2, k3, k4, k5)))
  {
    FindIdxFirst(lines, k1);
    FindIdxFirst(lines, k2);
    FindIdxFirst(lines, k3);
    FindIdxFirst(lines, k4);
    FindIdxFirst(lines, k5);
  }

  /** The end `slice_df` uses when it is given none (line 74). */
  const Sentinel: nat := 1_000_000_000

  function Bound(end: Option<nat>): nat {
    if end.None? then Sentinel else end.value
  }

  /** The rows with `lo <= line_idx < hi`, in order. */
  function Keep(rows: seq<Row>, lo: nat, hi: nat): (r: seq<Row>)
    ensures |r| <= |rows|
    decreases |rows|
  {
    if rows == [] then []
    else
      var last := rows[|rows| - 1];
      Keep(rows[..|rows| - 1], lo, hi) + (if lo <= last.lineIdx < hi then [last] else [])
  }

  /** `slice_df(start, end)` (lines 72-75). Nothing checks `start <= end`. */
  function SliceRows(rows: seq<Row>, start: nat, end: Option<nat>): (r: seq<Row>)
    ensures |r| <= |rows|
    ensures forall x :: x in r ==> x in rows && start <= x.lineIdx && (end.Some? ==> x.lineIdx < end.value)
  {
    KeepMembers(rows, start, Bound(end));
    Keep(rows, start, Bound(end))
  }

  /** A row is in the slice exactly when it is in the table and its
      `line_idx` is in `[lo, hi)`. */
  lemma {:induction false} KeepMembers(rows: seq<Row>, lo: nat, hi: nat)
    ensures forall r :: r in Keep(rows, lo, hi) <==> r in rows && lo <= r.lineIdx < hi
    decreases |rows|
  {
    if rows != [] {
      var init := rows[..|rows| - 1];
      KeepMembers(init, lo, hi);
      assert rows == init + [rows[|rows| - 1]];
    }
  }

  /** Slicing keeps the order of the table: the slice of two tables one after
      the other is the slice of the first followed by the slice of the
      second. */
  lemma {:induction false} KeepAppend(a: seq<Row>, b: seq<Row>, lo: nat, hi: nat)
    ensures Keep(a + b, lo, hi) == Keep(a, lo, hi) + Keep(b, lo, hi)
    decreases |b|
  {
    if b == [] {
      assert a + b == a;
    } else {
      var init := b[..|b| - 1];
      assert (a + b)[..|a + b| - 1] == a + init;
      assert (a + b)[|a + b| - 1] == b[|b| - 1];
      KeepAppend(a, init, lo, hi);
    }
  }

  /** With an end at or before the start the slice is empty. */
  lemma SliceEmpty(rows: seq<Row>, start: nat, end: nat)
    requires end <= start
    ensures SliceRows(rows, start, Some(end)) == []
  {
    KeepMembers(rows, start, end);
    if Keep(rows, start, end) != [] {
      assert Keep(rows, start, end)[0] in Keep(rows, start, end);
    }
  }

  /** Without an end, the slice keeps every row from `start` on whose
      `line_idx` is below the sentinel, and drops the others. */
  lemma SliceToEnd(rows: seq<Row>, start: nat)
    ensures forall r :: r in SliceRows(rows, start, None) <==>
      r in rows && start <= r.lineIdx && r.lineIdx < 1_000_000_000
  {
    KeepMembers(rows, start, Sentinel);
  }

  /** `line_idx` strictly increases along the table. */
  ghost predicate Ascending(rows: seq<Row>) {
    forall k1, k2 :: 0 <= k1 < k2 < |rows| ==> rows[k1].lineIdx < rows[k2].lineIdx
  }

  /** In line order, a row with a smaller `line_idx` comes earlier. */
  lemma AscendingBefore(rows: seq<Row>, m: nat, i: nat)
    requires Ascending(rows) && m < |rows| && i < |rows| && rows[m].lineIdx < rows[i].lineIdx
    ensures m < i
  {
  }

  lemma {:induction false} KeepBelow(rows: seq<Row>, lo: nat, hi: nat)
    requires forall k :: 0 <= k < |rows| ==> rows[k].lineIdx < lo
    ensures Keep(rows, lo, hi) == []
    decreases |rows|
  {
    if rows != [] {
      KeepBelow(rows[..|rows| - 1], lo, hi);
    }
  }

  /** A table in line order without its last row is in line order, and every
      row of it comes before that last row. */
  lemma AscendingInit(rows: seq<Row>)
    requires Ascending(rows) && rows != []
    ensures var init := rows[..|rows| - 1];
      Ascending(init) && forall k :: 0 <= k < |init| ==> init[k].lineIdx < rows[|rows| - 1].lineIdx
  {
    var init := rows[..|rows| - 1];
    forall k1, k2 | 0 <= k1 < k2 < |init| ensures init[k1].lineIdx < init[k2].lineIdx {
      assert init[k1] == rows[k1] && init[k2] == rows[k2];
    }
  }

  /** On a table in line order, cutting at `mid` splits a slice in two: the
      rows of `[lo, hi)` are those of `[lo, mid)` followed by those of
      `[mid, hi)`. */
  lemma {:induction false} KeepSplit(rows: seq<Row>, lo: nat, mid: nat, hi: nat)
    requires lo <= mid <= hi && Ascending(rows)
    ensures Keep(rows, lo, mid) + Keep(rows, mid, hi) == Keep(rows, lo, hi)
    decreases |rows|
  {
    if rows != [] {
      var init := rows[..|rows| - 1];
      var last := rows[|rows| - 1];
      AscendingInit(rows);
      KeepSplit(init, lo, mid, hi);
      var a, b := Keep(init, lo, mid), Keep(init, mid, hi);
      if lo <= last.lineIdx < mid {
        KeepBelow(init, mid, hi);
        assert Keep(rows, lo, mid) == a + [last];
        assert Keep(rows, mid, hi) == b == [];
        assert Keep(rows, lo, hi) == a + b + [last];
      } else {
        var tail := if mid <= last.lineIdx < hi then [last] else [];
        assert Keep(rows, lo, mid) == a;
        assert Keep(rows, mid, hi) == b + tail;
        assert Keep(rows, lo, hi) == a + b + tail;
        AppendAssoc(a, b, tail);
      }
    }
  }

  /** Slicing a table in line order leaves it in line order. */
  lemma {:induction false} KeepAscending(rows: seq<Row>, lo: nat, hi: nat)
    requires Ascending(rows)
    ensures Ascending(Keep(rows, lo, hi))
    decreases |rows|
  {
    if rows != [] {
      var n := |rows| - 1;
      var init, last := rows[..n], rows[n];
      KeepAscending(init, lo, hi);
      KeepMembers(init, lo, hi);
      var ki := Keep(init, lo, hi);
      assert Keep(rows, lo, hi) == ki + if lo <= last.lineIdx < hi then [last] else [];
      forall k | 0 <= k < |ki| ensures ki[k].lineIdx < last.lineIdx {
        assert ki[k] in init;
        var m :| 0 <= m < n && init[m] == ki[k];
        assert rows[m] == init[m];
      }
    }
  }

  /** The five tables of lines 77-82. */
  datatype Tables = Tables(ops: seq<Row>, bs: seq<Row>, cf: seq<Row>, seg: seq<Row>, cat: seq<Row>)

  /** Lines 77-82: the operations statement runs up to the balance sheet, the
      balance sheet up to the cash-flow statement and that to the end; the
      segment table runs up to the category table, which runs up to the
      balance sheet. */
  function SliceSections(rows: seq<Row>, st: Starts): (t: Tables)
    ensures forall x :: x in t.ops ==> x in rows && st.operations <= x.lineIdx < st.balanceSheet
    ensures forall x :: x in t.bs ==> x in rows && st.balanceSheet <= x.lineIdx < st.cashFlows
    ensures forall x :: x in t.cf ==> x in rows && st.cashFlows <= x.lineIdx
    ensures forall x :: x in t.seg ==> x in rows && st.segmentSales <= x.lineIdx < st.categorySales
    ensures forall x :: x in t.cat ==> x in rows && st.categorySales <= x.lineIdx < st.balanceSheet
  {
    Tables(
      SliceRows(rows, st.operations, Some(st.balanceSheet)),
      SliceRows(rows, st.balanceSheet, Some(st.cashFlows)),
      SliceRows(rows, st.cashFlows, None),
      SliceRows(rows, st.segmentSales, Some(st.categorySales)),
      SliceRows(rows, st.categorySales, Some(st.balanceSheet)))
  }

  /** When the three statements appear in the order operations, balance
      sheet, cash flows (and the document has fewer lines than the sentinel),
      their tables split the rows from the operations statement on: one after
      the other they are exactly those rows, in order. */
  lemma StatementsPartition(rows: seq<Row>, st: Starts)
    requires Ascending(rows)
    requires st.operations <= st.balanceSheet <= st.cashFlows <= Sentinel
    ensures var t := SliceSections(rows, st);
      t.ops + t.bs + t.cf == SliceRows(rows, st.operations, None)
  {
    KeepSplit(rows, st.operations, st.balanceSheet, st.cashFlows);
    KeepSplit(rows, st.operations, st.cashFlows, Sentinel);
  }
}
