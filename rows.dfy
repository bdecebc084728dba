/** `parse_line` and the row loop (conversion.py lines 30-53): every cleaned
    line with at least two numbers becomes a row of the table. */
module Rows {
  import opened Text
  import opened Results
  import opened Scanner
  import opened Numbers

  /** What `parse_line` returns for a line with two numbers or more: the label
      (`name`) and the texts of the first two numbers. */
  datatype Parsed = Parsed(name: string, first: string, second: string)

  /** One entry of `rows` (line 53). */
  datatype Row = Row(lineIdx: nat, name: string, value1: real, value2: real, raw: string)

  /** Why the conversion stops: `to_float` raised on a number of a line, a
      section header is missing, or no row was found, so the table has no
      `line_idx` column to slice on. */
  datatype Failure = NotAFloat(lineIdx: nat, text: string) | SectionHeaderNotFound(keyword: string) | NoRows

  predicate IsColonOrSpace(c: char) { c == ':' || c == ' ' }

  /** `prefix.strip(': ').strip()` (line 34). */
  function LabelOf(prefix: string): string {
    Trim(Trim(prefix, IsColonOrSpace), IsSpace)
  }

  /** `parse_line(line)` (lines 30-36): `None` when `findall` gives fewer than
      two numbers; otherwise the text before the first match of `search`,
      stripped, and the first two numbers. */
  function ParseLine(line: string): (r: Option<Parsed>)
    ensures r.None? <==> |Tokens(line)| < 2
  {
    var nums := Texts(line, Tokens(line));
    if |nums| >= 2 then
      SearchIsFirstToken(line, 0);
      var firstSpan := SearchFrom(line, 0).value;
      Some(Parsed(LabelOf(line[..firstSpan.start]), nums[0], nums[1]))
    else None
  }

  /** A line that `parse_line` accepts: its numbers are the first two matches
      of a leftmost-longest, non-overlapping search for the pattern, and its
      label is what the stripping keeps of the text before the first one. */
  lemma ParseLineTokens(line: string)
    requires ParseLine(line).Some?
    ensures var ts := Tokens(line); var r := ParseLine(line).value;
      |ts| >= 2 && IsFindAll(line, 0, ts) &&
      IsToken(line, ts[0].start, ts[0].end) && IsToken(line, ts[1].start, ts[1].end) &&
      ts[0].end <= ts[1].start &&
      r.first == line[ts[0].start..ts[0].end] && r.second == line[ts[1].start..ts[1].end] &&
      r.name == LabelOf(line[..ts[0].start])
  {
    var ts := Tokens(line);
    ScanIsFindAll(line, 0);
    SearchIsFirstToken(line, 0);
    ScanMatches(line, 0);
    AllMatchAt(line, ts, 0);
    AllMatchAt(line, ts, 1);
    MatchSound(line, ts[0].start);
    MatchSound(line, ts[1].start);
  }

  /** The label is one contiguous piece `prefix[i..j]` of the text before the
      first number: everything stripped from its ends is a colon or
      whitespace, and it neither starts nor ends with whitespace. */
  lemma LabelCuts(prefix: string) returns (i: nat, j: nat)
    ensures i <= j <= |prefix| && LabelOf(prefix) == prefix[i..j]
    ensures forall k :: 0 <= k < i ==> IsColonOrSpace(prefix[k]) || IsSpace(prefix[k])
    ensures forall k :: j <= k < |prefix| ==> IsColonOrSpace(prefix[k]) || IsSpace(prefix[k])
    ensures i < j ==> !IsSpace(prefix[i]) && !IsSpace(prefix[j - 1])
  {
    i, j := TrimTwiceCuts(prefix, IsColonOrSpace, IsSpace);
  }

  /** When the only whitespace in the text before the first number is the
      plain space, the label neither starts nor ends with a colon either;
      `TabKeepsColon` shows that the condition is needed. */
  lemma LabelNoColonEdges(prefix: string)
    requires forall k :: 0 <= k < |prefix| && IsSpace(prefix[k]) ==> prefix[k] == ' '
    ensures var r := LabelOf(prefix); r != [] ==> r[0] != ':' && r[|r| - 1] != ':'
  {
    TrimTwiceFirstOnly(prefix, IsColonOrSpace, IsSpace);
    var i, j := TrimCuts(prefix, IsColonOrSpace);
  }

  /** A tab between two colons stops the first strip, and the second strip
      then removes only the tab, so the label keeps a colon at its front. */
  lemma TabKeepsColon()
    ensures LabelOf(":\t:Net") == ":Net"
  {
    ColonStripStopsAtTab();
    SpaceStripTakesTab();
  }

  lemma ColonStripStopsAtTab()
    ensures Trim(":\t:Net", IsColonOrSpace) == "\t:Net"
  {
    var s := ":\t:Net";
    assert s[0] == ':' && s[1] == '\t' && s[|s| - 1] == 't';
    TrimOneFront(s, IsColonOrSpace);
    assert s[1..] == "\t:Net";
  }

  lemma SpaceStripTakesTab()
    ensures Trim("\t:Net", IsSpace) == ":Net"
  {
    var t := "\t:Net";
    assert t[0] == '\t' && t[1] == ':' && t[|t| - 1] == 't';
    TrimOneFront(t, IsSpace);
    assert t[1..] == ":Net";
  }

  /** What the row loop makes of line `idx` (lines 40-53): no row when
      `parse_line` gives nothing, a row with both numbers converted, or the
      error of the first `to_float` that raises (`map` converts the first
      number before the second). */
  function RowOf(idx: nat, ln: string): (r: Result<Option<Row>, Failure>)
    ensures (r.Ok? && r.value.None?) <==> |Tokens(ln)| < 2
    ensures r.Ok? && r.value.Some? ==> r.value.value.lineIdx == idx && r.value.value.raw == ln
    ensures r.Err? ==> r.error.NotAFloat? && r.error.lineIdx == idx
  {
    match ParseLine(ln)
    case None => Ok(None)
    case Some(pl) =>
      match ToFloat(pl.first)
      case Err(z) => Err(NotAFloat(idx, z))
      case Ok(v1) =>
        match ToFloat(pl.second)
        case Err(z) => Err(NotAFloat(idx, z))
        case Ok(v2) => Ok(Some(Row(idx, pl.name, v1, v2, ln)))
  }

  /** The three outcomes of a line, in terms of `parse_line` and `to_float`:
      no row when the line has fewer than two numbers; otherwise the row when
      both numbers convert, and else the error of the first that does not. */
  lemma RowOfCases(idx: nat, ln: string)
    ensures ParseLine(ln).None? ==> RowOf(idx, ln) == Ok(None)
    ensures ParseLine(ln).Some? ==>
      var pl := ParseLine(ln).value;
      var a := ToFloat(pl.first);
      var b := ToFloat(pl.second);
      (RowOf(idx, ln).Ok? <==> a.Ok? && b.Ok?) &&
      (a.Ok? && b.Ok? ==> RowOf(idx, ln).value == Some(Row(idx, pl.name, a.value, b.value, ln))) &&
      (a.Err? ==> RowOf(idx, ln).error == NotAFloat(idx, a.error)) &&
      (a.Ok? && b.Err? ==> RowOf(idx, ln).error == NotAFloat(idx, b.error))
  {
    var pl := ParseLine(ln);
    if pl.Some? {
      var a := ToFloat(pl.value.first);
      var b := ToFloat(pl.value.second);
      if a.Err? {
        assert RowOf(idx, ln) == Err(NotAFloat(idx, a.error));
      } else if b.Err? {
        assert RowOf(idx, ln) == Err(NotAFloat(idx, b.error));
      } else {
        assert RowOf(idx, ln) == Ok(Some(Row(idx, pl.value.name, a.value, b.value, ln)));
      }
    }
  }

  /** Appending one more outcome to a loop that has not failed. */
  lemma CollectStep(outs: seq<Result<Option<Row>, Failure>>, n: nat)
    requires n < |outs| && Collect(outs[..n]).Ok? && outs[n].Ok?
    ensures Collect(outs[..n + 1]).Ok?
    ensures Collect(outs[..n + 1]).value ==
      Collect(outs[..n]).value + (if outs[n].value.Some? then [outs[n].value.value] else [])
  {
    assert outs[..n + 1][..n] == outs[..n];
  }

  /** What the row loop makes of every line, in order. */
  function Outcomes(lines: seq<string>): (outs: seq<Result<Option<Row>, Failure>>)
    ensures |outs| == |lines|
    ensures forall i :: 0 <= i < |lines| ==> outs[i] == RowOf(i, lines[i])
  {
    seq(|lines|, i requires 0 <= i < |lines| => RowOf(i, lines[i]))
  }

  /** The table the loop builds from the outcomes of its lines, or the
      failure of the first line that fails. */
  function Collect(outs: seq<Result<Option<Row>, Failure>>): (r: Result<seq<Row>, Failure>)
    ensures r.Ok? ==> |r.value| <= |outs|
  {
    if outs == [] then Ok([])
    else match Collect(outs[..|outs| - 1])
      case Err(f) => Err(f)
      case Ok(rs) =>
        match outs[|outs| - 1]
        case Err(f) => Err(f)
        case Ok(None) => Ok(rs)
        case Ok(Some(r)) => Ok(rs + [r])
  }

  /** The rows of `lines`, or the failure that stops the loop. */
  function RowsOf(lines: seq<string>): (r: Result<seq<Row>, Failure>)
    ensures r.Ok? ==> |r.value| <= |lines|
  {
    Collect(Outcomes(lines))
  }

  /** The table is built exactly when no line fails. */
  lemma {:induction false} CollectOk(outs: seq<Result<Option<Row>, Failure>>)
    ensures Collect(outs).Ok? <==> forall i :: 0 <= i < |outs| ==> outs[i].Ok?
    decreases |outs|
  {
    if outs != [] {
      var init := outs[..|outs| - 1];
      CollectOk(init);
      assert forall i :: 0 <= i < |init| ==> init[i] == outs[i];
    }
  }

  /** When line `n` is the first that fails, its failure is what the loop
      reports. */
  lemma CollectFirstFailure(outs: seq<Result<Option<Row>, Failure>>, n: nat)
    requires n < |outs| && outs[n].Err? && Collect(outs[..n]).Ok?
    ensures Collect(outs).Err? && Collect(outs).error == outs[n].error
  {
    CollectFailsOn(outs, n, |outs|);
    assert outs[..|outs|] == outs;
  }

  lemma {:induction false} CollectFailsOn(outs: seq<Result<Option<Row>, Failure>>, n: nat, m: nat)
    requires n < m <= |outs| && outs[n].Err? && Collect(outs[..n]).Ok?
    ensures Collect(outs[..m]).Err? && Collect(outs[..m]).error == outs[n].error
    decreases m
  {
    assert outs[..m][..m - 1] == outs[..m - 1];
    if m > n + 1 {
      CollectFailsOn(outs, n, m - 1);
    }
  }

  /** A failing loop names its first failing line. */
  lemma CollectFailure(outs: seq<Result<Option<Row>, Failure>>) returns (n: nat)
    requires Collect(outs).Err?
    ensures n < |outs| && outs[n].Err? && Collect(outs).error == outs[n].error
    ensures forall j :: 0 <= j < n ==> outs[j].Ok?
  {
    CollectOk(outs);
    var m :| 0 <= m < |outs| && outs[m].Err?;
    n := m;
    while exists j :: 0 <= j < n && outs[j].Err?
      invariant n < |outs| && outs[n].Err?
      decreases n
    {
      var j :| 0 <= j < n && outs[j].Err?;
      n := j;
    }
    CollectOk(outs[..n]);
    CollectFirstFailure(outs, n);
  }

  /** Each outcome that is a row carries the index of its line. */
  ghost predicate Indexed(outs: seq<Result<Option<Row>, Failure>>) {
    forall i :: 0 <= i < |outs| && outs[i].Ok? && outs[i].value.Some? ==> outs[i].value.value.lineIdx == i
  }

  lemma OutcomesIndexed(lines: seq<string>)
    ensures Indexed(Outcomes(lines))
  {
    forall i | 0 <= i < |lines| ensures RowOf(i, lines[i]).Ok? && RowOf(i, lines[i]).value.Some? ==>
      RowOf(i, lines[i]).value.value.lineIdx == i
    {
      RowOfCases(i, lines[i]);
    }
  }

  /** The indices of the lines the rows come from. */
  function LineIndices(rows: seq<Row>): set<nat> {
    set k | 0 <= k < |rows| :: rows[k].lineIdx
  }

  /** Every row of a built table is the row of its own line, and the
      `line_idx` values strictly increase. */
  lemma {:induction false} CollectRowsOrdered(outs: seq<Result<Option<Row>, Failure>>)
    requires Indexed(outs) && Collect(outs).Ok?
    ensures var rs := Collect(outs).value;
      forall k :: 0 <= k < |rs| ==>
        rs[k].lineIdx < |outs| && outs[rs[k].lineIdx].Ok? && outs[rs[k].lineIdx].value == Some(rs[k])
    ensures var rs := Collect(outs).value;
      forall k1, k2 :: 0 <= k1 < k2 < |rs| ==> rs[k1].lineIdx < rs[k2].lineIdx
    decreases |outs|
  {
    if outs != [] {
      var init := outs[..|outs| - 1];
      assert forall i :: 0 <= i < |init| ==> init[i] == outs[i];
      CollectRowsOrdered(init);
      var rs0 := Collect(init).value;
      var rs := Collect(outs).value;
      var last := |outs| - 1;
      if outs[last].value.Some? {
        assert rs == rs0 + [outs[last].value.value];
        assert rs[|rs0|].lineIdx == last;
        forall k | 0 <= k < |rs0| ensures rs[k] == rs0[k] {
        }
      } else {
        assert rs == rs0;
      }
    }
  }

  /** A built table has a row for exactly the lines whose outcome is a row. */
  lemma {:induction false} CollectRowsCover(outs: seq<Result<Option<Row>, Failure>>)
    requires Indexed(outs) && Collect(outs).Ok?
    ensures forall i :: 0 <= i < |outs| ==>
      (outs[i].Ok? && outs[i].value.Some? <==> i in LineIndices(Collect(outs).value))
    decreases |outs|
  {
    if outs != [] {
      var init := outs[..|outs| - 1];
      assert forall i :: 0 <= i < |init| ==> init[i] == outs[i];
      CollectRowsCover(init);
      CollectRowsOrdered(init);
      var rs0 := Collect(init).value;
      var rs := Collect(outs).value;
      var last := |outs| - 1;
      if outs[last].value.Some? {
        assert rs == rs0 + [outs[last].value.value];
        assert LineIndices(rs) == LineIndices(rs0) + {last} by {
          forall x | x in LineIndices(rs) ensures x in LineIndices(rs0) + {last} {
            var k :| 0 <= k < |rs| && rs[k].lineIdx == x;
            if k < |rs0| {
              assert rs[k] == rs0[k];
            }
          }
          forall x | x in LineIndices(rs0) + {last} ensures x in LineIndices(rs) {
            if x == last {
              assert rs[|rs0|].lineIdx == last;
            } else {
              var k :| 0 <= k < |rs0| && rs0[k].lineIdx == x;
              assert rs[k] == rs0[k];
            }
          }
        }
      } else {
        assert rs == rs0;
      }
    }
  }

  /** The loop of lines 38-53. */
  method BuildRows(cleanLines: seq<string>) returns (res: Result<seq<Row>, Failure>)
    ensures res.Ok? <==> RowsOf(cleanLines).Ok?
    ensures res.Ok? ==> res.value == RowsOf(cleanLines).value
    ensures res.Err? ==> res.error == RowsOf(cleanLines).error
  {
    ghost var outs := Outcomes(cleanLines);
    var rows: seq<Row> := [];
    for idx := 0 to |cleanLines|
      invariant Collect(outs[..idx]).Ok? && Collect(outs[..idx]).value == rows
    {
      var o := LineToRow(idx, cleanLines[idx]);
      assert outs[idx] == RowOf(idx, cleanLines[idx]);
      if o.Err? {
        CollectFirstFailure(outs, idx);
        return Err(o.error);
      }
      CollectStep(outs, idx);
      if o.value.Some? {
        rows := rows + [o.value.value];
      }
    }
    assert outs[..|cleanLines|] == outs;
    return Ok(rows);
  }

  /** The body of the row loop (lines 40-53) on line `idx`: `parse_line`,
      then `to_float` on the first number and on the second. */
  method LineToRow(idx: nat, ln: string) returns (o: Result<Option<Row>, Failure>)
    ensures o.Ok? <==> RowOf(idx, ln).Ok?
    ensures o.Ok? ==> o.value == RowOf(idx, ln).value
    ensures o.Err? ==> o.error == RowOf(idx, ln).error
  {
    RowOfCases(idx, ln);
    var res := ParseLine(ln);
    if res.None? {
      return Ok(None);
    }
    var v1 := ToFloat(res.value.first);
    if v1.Err? {
      return Err(NotAFloat(idx, v1.error));
    }
    var v2 := ToFloat(res.value.second);
    if v2.Err? {
      return Err(NotAFloat(idx, v2.error));
    }
    return Ok(Some(Row(idx, res.value.name, v1.value, v2.value, ln)));
  }

  /** `r` is the row that line `ln` gives. */
  ghost predicate IsRowOf(r: Row, ln: string) {
    ParseLine(ln).Some? && r.raw == ln && r.name == ParseLine(ln).value.name &&
    ToFloat(ParseLine(ln).value.first).Ok? && r.value1 == ToFloat(ParseLine(ln).value.first).value &&
    ToFloat(ParseLine(ln).value.second).Ok? && r.value2 == ToFloat(ParseLine(ln).value.second).value
  }

  /** The loop builds its table exactly when every line with two numbers or
      more has two numbers that `to_float` accepts. */
  lemma RowsOfOk(lines: seq<string>)
    ensures RowsOf(lines).Ok? <==> forall i :: 0 <= i < |lines| ==>
      ParseLine(lines[i]).None? ||
      (ToFloat(ParseLine(lines[i]).value.first).Ok? && ToFloat(ParseLine(lines[i]).value.second).Ok?)
  {
    CollectOk(Outcomes(lines));
    forall i | 0 <= i < |lines| {
      RowOfCases(i, lines[i]);
    }
  }

  /** The table: one row per line with two numbers or more, in the order of
      the lines, each made of its own line's label and numbers. */
  lemma RowsOfTable(lines: seq<string>)
    requires RowsOf(lines).Ok?
    ensures var rs := RowsOf(lines).value;
      (forall k :: 0 <= k < |rs| ==> rs[k].lineIdx < |lines| && IsRowOf(rs[k], lines[rs[k].lineIdx])) &&
      (forall k1, k2 :: 0 <= k1 < k2 < |rs| ==> rs[k1].lineIdx < rs[k2].lineIdx) &&
      (forall i :: 0 <= i < |lines| ==> (ParseLine(lines[i]).Some? <==> i in LineIndices(rs)))
  {
    var outs := Outcomes(lines);
    OutcomesIndexed(lines);
    CollectOk(outs);
    CollectRowsOrdered(outs);
    CollectRowsCover(outs);
    var rs := RowsOf(lines).value;
    forall k | 0 <= k < |rs| ensures IsRowOf(rs[k], lines[rs[k].lineIdx]) {
      RowOfCases(rs[k].lineIdx, lines[rs[k].lineIdx]);
    }
    forall i | 0 <= i < |lines| ensures ParseLine(lines[i]).Some? <==> i in LineIndices(rs) {
      RowOfCases(i, lines[i]);
    }
  }

  /** A failing loop stops at the first line with two numbers or more where
      `to_float` rejects one of the first two, and reports that line and the
      text of the first number it rejects. */
  lemma RowsOfFailure(lines: seq<string>) returns (n: nat)
    requires RowsOf(lines).Err?
    ensures n < |lines| && ParseLine(lines[n]).Some?
    ensures var pl := ParseLine(lines[n]).value;
      var a := ToFloat(pl.first);
      var b := ToFloat(pl.second);
      (a.Err? || b.Err?) &&
      RowsOf(lines).error == NotAFloat(n, if a.Err? then a.error else b.error)
    ensures forall j :: 0 <= j < n ==>
      (ParseLine(lines[j]).None? ||
       (ToFloat(ParseLine(lines[j]).value.first).Ok? && ToFloat(ParseLine(lines[j]).value.second).Ok?))
  {
    var outs := Outcomes(lines);
    n := CollectFailure(outs);
    RowOfCases(n, lines[n]);
    forall j | 0 <= j < n {
      RowOfCases(j, lines[j]);
    }
  }

  /** How `to_float` reads the number the scanner matched at `s[p..e]`: it
      accepts it exactly when an opening parenthesis comes with a closing one,
      and then gives the number written there, negated in parentheses;
      otherwise it names the text without commas. */
  ghost predicate ReadsAs(s: string, p: nat, e: nat, r: Result<real, string>)
    requires p < e <= |s| && MatchAt(s, p).Some?
  {
    (r.Ok? <==> ((s[p] == '(') == (s[e - 1] == ')'))) &&
    (r.Ok? ==> r.value == if s[p] == '(' then -MatchValue(s, p) else MatchValue(s, p)) &&
    (r.Err? ==> r.error == Remove(s[p..e], IsComma))
  }

  /** The numbers of a row are read from the first two matches of its line. */
  lemma NumberValues(ln: string)
    requires ParseLine(ln).Some?
    ensures var ts := Tokens(ln); var pl := ParseLine(ln).value;
      |ts| >= 2 &&
      ts[0].start < ts[0].end <= ts[1].start < ts[1].end <= |ln| &&
      MatchAt(ln, ts[0].start) == Some(ts[0].end) && MatchAt(ln, ts[1].start) == Some(ts[1].end) &&
      ReadsAs(ln, ts[0].start, ts[0].end, ToFloat(pl.first)) &&
      ReadsAs(ln, ts[1].start, ts[1].end, ToFloat(pl.second))
  {
    var ts := Tokens(ln);
    var pl := ParseLine(ln).value;
    ScanMatches(ln, 0);
    AllMatchAt(ln, ts, 0);
    AllMatchAt(ln, ts, 1);
    assert pl.first == ln[ts[0].start..ts[0].end] && pl.second == ln[ts[1].start..ts[1].end];
    TokenReads(ln, ts[0].start, ts[0].end, pl.first);
    TokenReads(ln, ts[1].start, ts[1].end, pl.second);
  }

  lemma TokenReads(s: string, p: nat, e: nat, text: string)
    requires p <= |s| && MatchAt(s, p) == Some(e) && text == s[p..e]
    ensures p < e <= |s| && ReadsAs(s, p, e, ToFloat(text))
  {
    TokenToFloat(s, p, e);
  }

  /** The parentheses of the number at `sp` balance: it starts with `(`
      exactly when it ends with `)`. */
  predicate Balanced(ln: string, sp: Span)
    requires sp.start < sp.end <= |ln|
  {
    (ln[sp.start] == '(') == (ln[sp.end - 1] == ')')
  }

  /** The amount the number matched at `sp` writes, negative in
      parentheses. */
  ghost function Amount(ln: string, sp: Span): real
    requires sp.start <= |ln| && MatchAt(ln, sp.start).Some?
  {
    if ln[sp.start] == '(' then -MatchValue(ln, sp.start) else MatchValue(ln, sp.start)
  }

  /** A line the row loop gets past: it has fewer than two numbers, or the
      first two balance. */
  ghost predicate Accepted(ln: string) {
    var ts := Tokens(ln);
    |ts| < 2 || (Balanced(ln, ts[0]) && Balanced(ln, ts[1]))
  }

  /** The text reported for a line the loop stops on: the first of its two
      numbers that does not balance, without its commas. */
  ghost function Rejected(ln: string): string
    requires !Accepted(ln)
  {
    var ts := Tokens(ln);
    var sp := if Balanced(ln, ts[0]) then ts[1] else ts[0];
    Remove(ln[sp.start..sp.end], IsComma)
  }

  /** What line `idx` gives, stated on the matches of the pattern: no row
      exactly when it has fewer than two; otherwise, when the first two
      balance, the row of its label and the amounts they write, and else the
      error naming the first that does not balance. */
  lemma RowOfSpec(idx: nat, ln: string)
    ensures var r := RowOf(idx, ln); (r.Ok? && r.value.None?) <==> |Tokens(ln)| < 2
    ensures RowOf(idx, ln).Ok? <==> Accepted(ln)
    ensures var ts := Tokens(ln);
      |ts| >= 2 ==> MatchAt(ln, ts[0].start) == Some(ts[0].end) && MatchAt(ln, ts[1].start) == Some(ts[1].end)
    ensures var ts := Tokens(ln); var r := RowOf(idx, ln);
      |ts| >= 2 && r.Ok? ==>
        (r.value.Some? &&
         r.value.value.lineIdx == idx && r.value.value.raw == ln &&
         r.value.value.name == LabelOf(ln[..ts[0].start]) &&
         r.value.value.value1 == Amount(ln, ts[0]) && r.value.value.value2 == Amount(ln, ts[1]))
    ensures RowOf(idx, ln).Err? ==> RowOf(idx, ln).error == NotAFloat(idx, Rejected(ln))
  {
    if |Tokens(ln)| >= 2 {
      TokensMatch(ln);
      RowOfAccepted(idx, ln);
      if RowOf(idx, ln).Ok? {
        RowOfValues(idx, ln);
      } else {
        RowOfError(idx, ln);
      }
    } else {
      RowOfCases(idx, ln);
    }
  }

  lemma TokensMatch(ln: string)
    requires |Tokens(ln)| >= 2
    ensures var ts := Tokens(ln);
      MatchAt(ln, ts[0].start) == Some(ts[0].end) && MatchAt(ln, ts[1].start) == Some(ts[1].end)
  {
    ScanMatches(ln, 0);
    AllMatchAt(ln, Tokens(ln), 0);
    AllMatchAt(ln, Tokens(ln), 1);
  }

  lemma RowOfAccepted(idx: nat, ln: string)
    requires |Tokens(ln)| >= 2
    ensures RowOf(idx, ln).Ok? <==> Accepted(ln)
  {
    var ts := Tokens(ln);
    var pl := ParseLine(ln).value;
    NumberValues(ln);
    RowOfCases(idx, ln);
    assert ToFloat(pl.first).Ok? <==> Balanced(ln, ts[0]);
    assert ToFloat(pl.second).Ok? <==> Balanced(ln, ts[1]);
  }

  lemma RowOfValues(idx: nat, ln: string)
    requires |Tokens(ln)| >= 2 && RowOf(idx, ln).Ok?
    ensures var ts := Tokens(ln); var r := RowOf(idx, ln);
      MatchAt(ln, ts[0].start) == Some(ts[0].end) && MatchAt(ln, ts[1].start) == Some(ts[1].end) &&
      r.value.Some? &&
      r.value.value.name == LabelOf(ln[..ts[0].start]) &&
      r.value.value.value1 == Amount(ln, ts[0]) && r.value.value.value2 == Amount(ln, ts[1])
  {
    RowOfCases(idx, ln);
    ParseLineTokens(ln);
    NumberValues(ln);
  }

  lemma RowOfError(idx: nat, ln: string)
    requires |Tokens(ln)| >= 2 && RowOf(idx, ln).Err?
    ensures !Accepted(ln) && RowOf(idx, ln).error == NotAFloat(idx, Rejected(ln))
  {
    RowOfCases(idx, ln);
    NumberValues(ln);
  }

  /** The loop builds its table exactly when it gets past every line. */
  lemma RowsOfAccepted(lines: seq<string>)
    ensures RowsOf(lines).Ok? <==> forall i :: 0 <= i < |lines| ==> Accepted(lines[i])
  {
    CollectOk(Outcomes(lines));
    forall i | 0 <= i < |lines| ensures RowOf(i, lines[i]).Ok? <==> Accepted(lines[i]) {
      RowOfSpec(i, lines[i]);
    }
  }

  /** A failing loop reports the first line it cannot get past, with the
      first number there whose parentheses do not balance. */
  lemma RowsOfRejected(lines: seq<string>)
    requires RowsOf(lines).Err?
    ensures var f := RowsOf(lines).error;
      f.NotAFloat? && f.lineIdx < |lines| && !Accepted(lines[f.lineIdx]) &&
      f.text == Rejected(lines[f.lineIdx]) &&
      forall j :: 0 <= j < f.lineIdx ==> Accepted(lines[j])
  {
    var outs := Outcomes(lines);
    var n := CollectFailure(outs);
    RowOfSpec(n, lines[n]);
    forall j | 0 <= j < n ensures Accepted(lines[j]) {
      RowOfSpec(j, lines[j]);
    }
  }

  /** A built table is empty exactly when no line has two numbers. */
  lemma RowsOfEmpty(lines: seq<string>)
    requires RowsOf(lines).Ok?
    ensures RowsOf(lines).value == [] <==> forall i :: 0 <= i < |lines| ==> |Tokens(lines[i])| < 2
  {
    RowsOfTable(lines);
    var rs := RowsOf(lines).value;
    if rs != [] {
      assert rs[0].lineIdx in LineIndices(rs);
    }
  }
}
