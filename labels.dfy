/** `clean_labels` (conversion.py lines 85-95): the normalised label column
    and the removal of rows whose normalised label repeats. */
module Labels {
  import opened Text
  import opened Rows

  /** The class `[\$\(\)\d]` of line 88. */
  predicate IsSymbolOrDigit(c: char) { c == '$' || c == '(' || c == ')' || IsDigit(c) }

  /** The class `[A-Za-z/& ]` of line 89. */
  predicate IsLabelChar(c: char) { IsUpper(c) || IsLower(c) || c == '/' || c == '&' || c == ' ' }

  predicate NotLabelChar(c: char) { !IsLabelChar(c) }

  /** The class `[ /]` of line 91. */
  predicate IsJoiner(c: char) { c == ' ' || c == '/' }

  /** Line 88: `re.sub(r'[\$\(\)\d]+', '', s)`; deleting every run of the class
      deletes every character of it. */
  function StripSymbols(s: string): string {
    Remove(s, IsSymbolOrDigit)
  }

  /** Line 89: `re.sub(r'[^A-Za-z/& ]', '', s)`. */
  function KeepLabelChars(s: string): string {
    Remove(s, NotLabelChar)
  }

  /** Length of the run of spaces and slashes at the front of `s`. */
  function JoinerRun(s: string): (n: nat)
    ensures n <= |s|
    ensures forall i :: 0 <= i < n ==> IsJoiner(s[i])
    ensures n < |s| ==> !IsJoiner(s[n])
  {
    if s != [] && IsJoiner(s[0]) then 1 + JoinerRun(s[1..]) else 0
  }

  /** No two adjacent underscores. */
  ghost predicate NoDoubleUnderscore(s: string) {
    forall i :: 0 <= i < |s| - 1 ==> !(s[i] == '_' && s[i + 1] == '_')
  }

  /** Line 91: `re.sub(r'[ /]+', '_', s)`, every maximal run of spaces and
      slashes becoming one underscore. */
  function JoinWords(s: string): (r: string)
    ensures |r| <= |s|
    decreases |s|
  {
    if s == [] then []
    else if IsJoiner(s[0]) then "_" + JoinWords(s[JoinerRun(s)..])
    else [s[0]] + JoinWords(s[1..])
  }

  /** Every character of `JoinWords(s)` is an underscore or a character of
      `s` other than a space or a slash; when `s` has no underscore of its
      own, the result starts with one exactly when `s` starts with a space or
      a slash, and it never has two in a row. */
  lemma {:induction false} JoinWordsShape(s: string)
    ensures var r := JoinWords(s);
      (forall c :: c in r ==> c == '_' || (c in s && !IsJoiner(c))) &&
      ('_' !in s && s != [] ==> r != [] && (r[0] == '_' <==> IsJoiner(s[0]))) &&
      ('_' !in s ==> NoDoubleUnderscore(r))
    decreases |s|
  {
    if s != [] {
      var k := if IsJoiner(s[0]) then JoinerRun(s) else 1;
      var t := s[k..];
      JoinWordsShape(t);
      assert forall c :: c in t ==> c in s;
      if '_' !in s && t != [] {
        assert t[0] == s[k];
      }
    }
  }

  /** The leading run of spaces and slashes of `a` is that of `a + t` when it
      ends inside `a`. */
  lemma JoinerRunPrefix(a: string, t: string)
    requires JoinerRun(a) < |a|
    ensures JoinerRun(a + t) == JoinerRun(a)
  {
    var n, m := JoinerRun(a + t), JoinerRun(a);
    assert (a + t)[m] == a[m];
  }

  /** A run `w` of spaces and slashes between two other characters becomes
      exactly one underscore, whatever its length, and the text around it is
      joined on its own. */
  lemma {:induction false} JoinRun(a: string, w: string, b: string)
    requires a == [] || !IsJoiner(a[|a| - 1])
    requires |w| >= 1 && forall i :: 0 <= i < |w| ==> IsJoiner(w[i])
    requires b == [] || !IsJoiner(b[0])
    ensures JoinWords(a + w + b) == JoinWords(a) + "_" + JoinWords(b)
  {
    JoinAppend(a, w + b);
    JoinLeadingRun(w, b);
    AppendAssoc(a, w, b);
    AppendAssoc(JoinWords(a), "_", JoinWords(b));
  }

  /** The replacement works on the two sides of a character that is neither
      a space nor a slash independently. */
  lemma {:induction false} JoinAppend(x: string, y: string)
    requires x == [] || !IsJoiner(x[|x| - 1])
    ensures JoinWords(x + y) == JoinWords(x) + JoinWords(y)
    decreases |x|
  {
    if x == [] {
      assert x + y == y;
    } else {
      var k, head := JoinStep(x, y);
      JoinAppend(x[k..], y);
      AppendAssoc(head, JoinWords(x[k..]), JoinWords(y));
    }
  }

  /** The run at the front of `w + b` becomes one underscore. */
  lemma {:induction false} JoinLeadingRun(w: string, b: string)
    requires |w| >= 1 && forall i :: 0 <= i < |w| ==> IsJoiner(w[i])
    requires b == [] || !IsJoiner(b[0])
    ensures JoinWords(w + b) == "_" + JoinWords(b)
  {
    var s := w + b;
    var n := JoinerRun(s);
    assert s[|w| - 1] == w[|w| - 1];
    if |s| > |w| {
      assert s[|w|] == b[0];
    }
    assert n == |w|;
    assert s[n..] == b;
    assert s[0] == w[0];
  }

  /** One step of the replacement on `a + t` stays inside `a` when `a` ends
      with a character that is neither a space nor a slash: it turns the
      first `k` characters into `head` on `a + t` as on `a`. */
  lemma {:induction false} JoinStep(a: string, t: string) returns (k: nat, head: string)
    requires a != [] && !IsJoiner(a[|a| - 1])
    ensures 1 <= k <= |a|
    ensures JoinWords(a + t) == head + JoinWords(a[k..] + t)
    ensures JoinWords(a) == head + JoinWords(a[k..])
  {
    var s := a + t;
    assert s[0] == a[0];
    if IsJoiner(a[0]) {
      k, head := JoinerRun(a), "_";
      assert k < |a|;
      JoinerRunPrefix(a, t);
      assert s[k..] == a[k..] + t;
    } else {
      k, head := 1, [a[0]];
      assert s[1..] == a[1..] + t;
    }
  }

  /** The chain of lines 87-91: `label_clean`. It is made of lower-case ASCII
      letters, `&` and `_` only, and never has two underscores in a row. */
  function LabelClean(text: string): (r: string)
    ensures forall c :: c in r ==> IsLower(c) || c == '&' || c == '_'
    ensures NoDoubleUnderscore(r)
  {
    var a := KeepLabelChars(StripSymbols(text));
    RemoveSubset(StripSymbols(text), NotLabelChar);
    var b := Trim(a, IsSpace);
    TrimSubset(a, IsSpace);
    var l := Lower(b);
    LowerLabelChars(b);
    assert '_' !in l;
    JoinWordsShape(l);
    JoinWords(l)
  }

  /** Lower-casing label characters leaves lower-case letters, slashes,
      ampersands and spaces. */
  lemma LowerLabelChars(b: string)
    requires forall c :: c in b ==> IsLabelChar(c)
    ensures forall c :: c in Lower(b) ==> IsLower(c) || c == '/' || c == '&' || c == ' '
  {
    forall c | c in Lower(b) ensures IsLower(c) || c == '/' || c == '&' || c == ' ' {
      var k :| 0 <= k < |b| && Lower(b)[k] == c;
      assert b[k] in b;
    }
  }

  /** The first replacement changes nothing that the second would keep: the
      symbols and digits it deletes are outside `[A-Za-z/& ]` anyway. */
  lemma StripSymbolsRedundant(text: string)
    ensures KeepLabelChars(StripSymbols(text)) == KeepLabelChars(text)
  {
    RemoveWithin(text, IsSymbolOrDigit, NotLabelChar);
  }

  /** A letter or an ampersand: what survives into `label_clean` unchanged
      but for case. */
  predicate IsWordChar(c: char) { IsUpper(c) || IsLower(c) || c == '&' }

  predicate NotWordChar(c: char) { !IsWordChar(c) }

  /** The letters and ampersands of a string, in order. */
  function WordChars(s: string): string {
    Remove(s, NotWordChar)
  }

  lemma {:induction false} LowerWordChars(s: string)
    ensures WordChars(Lower(s)) == Lower(WordChars(s))
    decreases |s|
  {
    if s != [] {
      var c, rest := s[0], s[1..];
      LowerWordChars(rest);
      var l := Lower(s);
      assert l[0] == LowerChar(c) && l[1..] == Lower(rest);
      assert NotWordChar(LowerChar(c)) == NotWordChar(c);
      var head := if NotWordChar(c) then [] else [c];
      assert WordChars(s) == head + WordChars(rest);
      LowerAppend(head, WordChars(rest));
      assert Lower(head) == if NotWordChar(c) then [] else [LowerChar(c)];
    }
  }

  lemma {:induction false} JoinWordsKeepsWords(s: string)
    ensures WordChars(JoinWords(s)) == WordChars(s)
    decreases |s|
  {
    if s != [] {
      if IsJoiner(s[0]) {
        var k := JoinerRun(s);
        JoinWordsKeepsWords(s[k..]);
        UnderscoreHasNoWord(JoinWords(s[k..]));
        RunHasNoWord(s, k);
      } else {
        JoinWordsKeepsWords(s[1..]);
        WordCharsCons(s[0], JoinWords(s[1..]));
        WordCharsCons(s[0], s[1..]);
        assert s == [s[0]] + s[1..];
      }
    }
  }

  lemma UnderscoreHasNoWord(x: string)
    ensures WordChars("_" + x) == WordChars(x)
  {
    assert ("_" + x)[1..] == x;
  }

  lemma WordCharsCons(c: char, x: string)
    ensures WordChars([c] + x) == (if NotWordChar(c) then [] else [c]) + WordChars(x)
  {
    assert ([c] + x)[1..] == x;
  }

  /** A leading run of spaces and slashes holds no word character. */
  lemma RunHasNoWord(s: string, k: nat)
    requires k <= |s| && forall i :: 0 <= i < k ==> IsJoiner(s[i])
    ensures WordChars(s) == WordChars(s[k..])
  {
    assert s == s[..k] + s[k..];
    RemoveAppend(s[..k], s[k..], NotWordChar);
    RemoveDropped(s[..k], NotWordChar);
  }

  /** No word character is lost or reordered: the letters and ampersands of
      `label_clean` are those of the label, lower-cased, in order. */
  lemma LabelCleanKeepsWords(text: string)
    ensures WordChars(LabelClean(text)) == Lower(WordChars(text))
  {
    var b := KeepLabelChars(StripSymbols(text));
    RemovalsKeepWords(text);
    var c := Trim(b, IsSpace);
    TrimWithin(b, IsSpace, NotWordChar);
    LowerWordChars(c);
    JoinWordsKeepsWords(Lower(c));
  }

  /** The deletions of lines 88-89 keep every letter and ampersand. */
  lemma RemovalsKeepWords(text: string)
    ensures WordChars(KeepLabelChars(StripSymbols(text))) == WordChars(text)
  {
    var a := StripSymbols(text);
    RemoveWithin(text, IsSymbolOrDigit, NotWordChar);
    RemoveWithin(a, NotLabelChar, NotWordChar);
  }

  /** Where spaces and slashes come one at a time, the replacement of line 91
      turns each of them into an underscore and keeps everything else in
      place. */
  lemma {:induction false} JoinSingleJoiners(s: string)
    requires forall i :: 0 <= i < |s| - 1 ==> !(IsJoiner(s[i]) && IsJoiner(s[i + 1]))
    ensures |JoinWords(s)| == |s|
    ensures forall i :: 0 <= i < |s| ==> JoinWords(s)[i] == if IsJoiner(s[i]) then '_' else s[i]
    decreases |s|
  {
    if s != [] {
      JoinSingleJoiners(s[1..]);
      if IsJoiner(s[0]) {
        assert JoinerRun(s) == 1;
      }
    }
  }

  /** Words of ASCII letters separated by single spaces (with spaces allowed
      at the edges). */
  ghost predicate SingleSpacedWords(s: string) {
    (forall i :: 0 <= i < |s| ==> IsUpper(s[i]) || IsLower(s[i]) || s[i] == ' ') &&
    forall i :: 0 <= i < |s| - 1 ==> !(s[i] == ' ' && s[i + 1] == ' ')
  }

  /** Line 87 on a label made of words of letters separated by single
      spaces, such as " Cash and cash equivalents ": `label_clean` is the label
      without its edge spaces, lower-cased, each inner space an underscore
      ("cash_and_cash_equivalents"). */
  lemma LabelCleanOfWords(text: string)
    requires SingleSpacedWords(text)
    ensures var t := Trim(text, IsSpace); var r := LabelClean(text);
      |r| == |t| && forall i :: 0 <= i < |t| ==> r[i] == if t[i] == ' ' then '_' else LowerChar(t[i])
  {
    WordsSurviveRemoval(text);
    var i, j := TrimCuts(text, IsSpace);
    SingleSpacedPiece(text, i, j);
    JoinLoweredWords(text[i..j]);
  }

  /** Neither deletion of lines 88-89 touches such a label. */
  lemma WordsSurviveRemoval(text: string)
    requires SingleSpacedWords(text)
    ensures KeepLabelChars(StripSymbols(text)) == text
  {
    RemoveKept(text, IsSymbolOrDigit);
    RemoveKept(text, NotLabelChar);
  }

  lemma SingleSpacedPiece(text: string, i: nat, j: nat)
    requires i <= j <= |text| && SingleSpacedWords(text)
    ensures SingleSpacedWords(text[i..j])
  {
    var t := text[i..j];
    forall k | 0 <= k < |t| ensures t[k] == text[i + k] { }
  }

  /** Lines 90-91 on single-spaced words. */
  lemma JoinLoweredWords(t: string)
    requires SingleSpacedWords(t)
    ensures |JoinWords(Lower(t))| == |t|
    ensures forall i :: 0 <= i < |t| ==> JoinWords(Lower(t))[i] == if t[i] == ' ' then '_' else LowerChar(t[i])
  {
    var l := Lower(t);
    forall k | 0 <= k < |l| ensures IsJoiner(l[k]) <==> t[k] == ' ' { }
    JoinSingleJoiners(l);
  }

  /** A row of a table after line 87: the row and its `label_clean`. */
  datatype CleanRow = CleanRow(row: Row, labelClean: string)

  /** Line 87: the column `label_clean` added to every row. */
  function WithLabelClean(rows: seq<Row>): (r: seq<CleanRow>)
    ensures |r| == |rows|
    ensures forall i :: 0 <= i < |rows| ==> r[i].row == rows[i] && r[i].labelClean == LabelClean(rows[i].name)
  {
    seq(|rows|, i requires 0 <= i < |rows| => CleanRow(rows[i], LabelClean(rows[i].name)))
  }

  /** The labels present in a table. */
  function Keys(rows: seq<CleanRow>): set<string> {
    set x | x in rows :: x.labelClean
  }

  /** `drop_duplicates(subset='label_clean')` (line 93) as pandas performs it:
      a scan from the top, keeping a row when its label has not been seen. */
  function DedupFrom(rows: seq<CleanRow>, seen: set<string>): (r: seq<CleanRow>)
    ensures |r| <= |rows|
    decreases |rows|
  {
    if rows == [] then []
    else if rows[0].labelClean in seen then DedupFrom(rows[1..], seen)
    else [rows[0]] + DedupFrom(rows[1..], seen + {rows[0].labelClean})
  }

  /** No two rows of the result share a label, and every row of it is a row
      of the input. */
  function DropDuplicates(rows: seq<CleanRow>): (r: seq<CleanRow>)
    ensures |r| <= |rows|
    ensures forall x :: x in r ==> x in rows
    ensures forall i, j :: 0 <= i < j < |r| ==> r[i].labelClean != r[j].labelClean
  {
    DedupFromSpec(rows, {});
    DedupFrom(rows, {})
  }

  /** The scan keeps rows of its input, none with a label it had already seen,
      and none two with the same label. */
  lemma DedupFromSpec(rows: seq<CleanRow>, seen: set<string>)
    ensures var r := DedupFrom(rows, seen);
      (forall x :: x in r ==> x in rows && x.labelClean !in seen) &&
      (forall i, j :: 0 <= i < j < |r| ==> r[i].labelClean != r[j].labelClean)
  {
    DedupFromMembers(rows, seen);
    DedupFromUnique(rows, seen);
  }

  lemma {:induction false} DedupFromMembers(rows: seq<CleanRow>, seen: set<string>)
    ensures forall x :: x in DedupFrom(rows, seen) ==> x in rows && x.labelClean !in seen
    decreases |rows|
  {
    if rows != [] {
      var x := rows[0];
      if x.labelClean in seen {
        DedupFromMembers(rows[1..], seen);
        assert DedupFrom(rows, seen) == DedupFrom(rows[1..], seen);
      } else {
        DedupFromMembers(rows[1..], seen + {x.labelClean});
        assert DedupFrom(rows, seen) == [x] + DedupFrom(rows[1..], seen + {x.labelClean});
      }
    }
  }

  /** No two rows of a table share a label. */
  ghost predicate DistinctLabels(r: seq<CleanRow>) {
    forall i, j :: 0 <= i < j < |r| ==> r[i].labelClean != r[j].labelClean
  }

  /** A row put in front of a table whose labels are distinct and differ
      from its own gives a table whose labels are distinct. */
  lemma ConsUnique(x: CleanRow, t: seq<CleanRow>)
    requires forall y :: y in t ==> y.labelClean != x.labelClean
    requires DistinctLabels(t)
    ensures DistinctLabels([x] + t)
  {
    var r := [x] + t;
    forall i, j | 0 <= i < j < |r| ensures r[i].labelClean != r[j].labelClean {
      assert r[j] == t[j - 1];
      if i == 0 {
        assert t[j - 1] in t;
      } else {
        assert r[i] == t[i - 1];
      }
    }
  }

  lemma {:induction false} DedupFromUnique(rows: seq<CleanRow>, seen: set<string>)
    ensures DistinctLabels(DedupFrom(rows, seen))
    decreases |rows|
  {
    if rows != [] {
      var x := rows[0];
      if x.labelClean in seen {
        DedupFromUnique(rows[1..], seen);
        assert DedupFrom(rows, seen) == DedupFrom(rows[1..], seen);
      } else {
        var seen' := seen + {x.labelClean};
        DedupFromUnique(rows[1..], seen');
        DedupFromMembers(rows[1..], seen');
        var t := DedupFrom(rows[1..], seen');
        assert DedupFrom(rows, seen) == [x] + t;
        ConsUnique(x, t);
      }
    }
  }

  /** Reference definition of keep-first: the table with every row removed
      whose label already occurs above it. */
  function FirstOccurrences(rows: seq<CleanRow>): seq<CleanRow>
    decreases |rows|
  {
    if rows == [] then []
    else
      var init := rows[..|rows| - 1];
      var last := rows[|rows| - 1];
      FirstOccurrences(init) + (if last.labelClean in Keys(init) then [] else [last])
  }

  lemma KeysAppend(a: seq<CleanRow>, b: seq<CleanRow>)
    ensures Keys(a + b) == Keys(a) + Keys(b)
  {
    forall k | k in Keys(a + b) ensures k in Keys(a) + Keys(b) {
      var x :| x in a + b && x.labelClean == k;
    }
  }

  /** The scan over two tables one after the other is the scan of the first
      followed by the scan of the second, which has also seen the labels of
      the first. */
  lemma {:induction false} DedupFromAppend(a: seq<CleanRow>, b: seq<CleanRow>, seen: set<string>)
    ensures DedupFrom(a + b, seen) == DedupFrom(a, seen) + DedupFrom(b, SeenAfter(a, seen))
    decreases |a|
  {
    if a == [] {
      assert a + b == b;
    } else {
      var x, rest := a[0], a[1..];
      DedupFromAppend(rest, b, seen + {x.labelClean});
      DedupCons(x, rest + b, seen);
      DedupCons(x, rest, seen);
      assert a == [x] + rest && a + b == [x] + (rest + b);
    }
  }

  /** The labels the scan has seen after `a`. */
  function SeenAfter(a: seq<CleanRow>, seen: set<string>): set<string>
    decreases |a|
  {
    if a == [] then seen else SeenAfter(a[1..], seen + {a[0].labelClean})
  }

  lemma {:induction false} SeenAfterKeys(a: seq<CleanRow>, seen: set<string>)
    ensures SeenAfter(a, seen) == seen + Keys(a)
    decreases |a|
  {
    if a == [] {
      assert Keys(a) == {};
    } else {
      var x, rest := a[0], a[1..];
      SeenAfterKeys(rest, seen + {x.labelClean});
      assert a == [x] + rest;
      KeysAppend([x], rest);
      assert Keys([x]) == {x.labelClean};
    }
  }

  /** One step of the scan; a label already seen adds nothing to `seen`. */
  lemma DedupCons(x: CleanRow, t: seq<CleanRow>, seen: set<string>)
    ensures DedupFrom([x] + t, seen) ==
      (if x.labelClean in seen then [] else [x]) + DedupFrom(t, seen + {x.labelClean})
  {
    assert ([x] + t)[0] == x && ([x] + t)[1..] == t;
    if x.labelClean in seen {
      assert seen + {x.labelClean} == seen;
    }
  }

  /** Keep-first as pandas scans it agrees with the reference definition. */
  lemma {:induction false} DropDuplicatesIsFirstOccurrences(rows: seq<CleanRow>)
    ensures DropDuplicates(rows) == FirstOccurrences(rows)
    decreases |rows|
  {
    if rows != [] {
      var init := rows[..|rows| - 1];
      var last := rows[|rows| - 1];
      assert rows == init + [last];
      DedupFromAppend(init, [last], {});
      SeenAfterKeys(init, {});
      assert {} + Keys(init) == Keys(init);
      DropDuplicatesIsFirstOccurrences(init);
      DedupCons(last, [], Keys(init));
      assert [last] + [] == [last];
    }
  }

  /** The row at `i` is the first of its label. */
  ghost predicate IsFirstOf(rows: seq<CleanRow>, i: nat)
    requires i < |rows|
  {
    forall j :: 0 <= j < i ==> rows[j].labelClean != rows[i].labelClean
  }

  /** Keep-first leaves every label exactly once: no two rows share a label,
      and the labels are those of the input. */
  lemma {:induction false} FirstOccurrencesUnique(rows: seq<CleanRow>)
    ensures var r := FirstOccurrences(rows);
      (forall i, j :: 0 <= i < j < |r| ==> r[i].labelClean != r[j].labelClean) &&
      Keys(r) == Keys(rows)
    decreases |rows|
  {
    if rows != [] {
      var init := rows[..|rows| - 1];
      var last := rows[|rows| - 1];
      FirstOccurrencesUnique(init);
      assert rows == init + [last];
      KeysAppend(init, [last]);
      var fi := FirstOccurrences(init);
      var tail := if last.labelClean in Keys(init) then [] else [last];
      KeysAppend(fi, tail);
      var r := FirstOccurrences(rows);
      assert r == fi + tail;
      forall i, j | 0 <= i < j < |r| ensures r[i].labelClean != r[j].labelClean {
        if j == |fi| {
          assert r[i] == fi[i] && fi[i] in fi;
        } else {
          assert r[i] == fi[i] && r[j] == fi[j];
        }
      }
    }
  }

  /** The last row is the first of its label exactly when its label is not
      among those above it. */
  lemma LastIsFirst(rows: seq<CleanRow>)
    requires rows != []
    ensures IsFirstOf(rows, |rows| - 1) <==> rows[|rows| - 1].labelClean !in Keys(rows[..|rows| - 1])
  {
    var init, last := rows[..|rows| - 1], rows[|rows| - 1];
    if last.labelClean in Keys(init) {
      var x :| x in init && x.labelClean == last.labelClean;
      var j :| 0 <= j < |init| && init[j] == x;
      assert rows[j] == x;
    } else {
      forall j | 0 <= j < |init| ensures rows[j].labelClean != last.labelClean {
        assert rows[j] == init[j] && init[j] in init;
      }
    }
  }

  /** Whether a row is the first of its label depends only on the rows above
      it. */
  lemma FirstInPrefix(rows: seq<CleanRow>, n: nat, i: nat)
    requires i < n <= |rows|
    ensures IsFirstOf(rows, i) <==> IsFirstOf(rows[..n], i)
  {
    assert forall j :: 0 <= j <= i ==> rows[..n][j] == rows[j];
  }

  /** Keep-first keeps, in order, exactly the rows that are the first of their
      label: a row of the result is such a row of the input, and every such
      row of the input is in the result. */
  lemma {:induction false} FirstOccurrencesKeepsFirsts(rows: seq<CleanRow>)
    ensures var r := FirstOccurrences(rows);
      (forall x :: x in r ==> exists i :: 0 <= i < |rows| && rows[i] == x && IsFirstOf(rows, i)) &&
      (forall i :: 0 <= i < |rows| && IsFirstOf(rows, i) ==> rows[i] in r)
    decreases |rows|
  {
    if rows != [] {
      var n := |rows| - 1;
      var init, last := rows[..n], rows[n];
      FirstOccurrencesKeepsFirsts(init);
      LastIsFirst(rows);
      var fi := FirstOccurrences(init);
      var r := FirstOccurrences(rows);
      assert r == fi + (if IsFirstOf(rows, n) then [last] else []);
      forall x | x in r ensures exists i :: 0 <= i < |rows| && rows[i] == x && IsFirstOf(rows, i) {
        if x in fi {
          var i :| 0 <= i < n && init[i] == x && IsFirstOf(init, i);
          FirstInPrefix(rows, n, i);
          assert rows[i] == x;
        } else {
          assert x == rows[n] && IsFirstOf(rows, n);
        }
      }
      forall i | 0 <= i < |rows| && IsFirstOf(rows, i) ensures rows[i] in r {
        if i < n {
          FirstInPrefix(rows, n, i);
          assert rows[i] == init[i];
        }
      }
    }
  }

  /** Keep-first is a subsequence of its input: the `k`-th row kept is the
      row at `pos[k]` of the input, and the positions strictly increase, so
      the rows keep their relative order. */
  lemma {:induction false} FirstOccurrencesInOrder(rows: seq<CleanRow>) returns (pos: seq<nat>)
    ensures var r := FirstOccurrences(rows);
      |pos| == |r| &&
      (forall k :: 0 <= k < |pos| ==> pos[k] < |rows| && r[k] == rows[pos[k]]) &&
      (forall k1, k2 :: 0 <= k1 < k2 < |pos| ==> pos[k1] < pos[k2])
    decreases |rows|
  {
    if rows == [] {
      pos := [];
    } else {
      var n := |rows| - 1;
      var init, last := rows[..n], rows[n];
      var p := FirstOccurrencesInOrder(init);
      var fi := FirstOccurrences(init);
      var tail := if last.labelClean in Keys(init) then [] else [last];
      assert FirstOccurrences(rows) == fi + tail;
      pos := p + if tail == [] then [] else [n];
      forall k | 0 <= k < |pos| ensures pos[k] < |rows| && (fi + tail)[k] == rows[pos[k]] {
        if k < |p| {
          assert pos[k] == p[k] && rows[p[k]] == init[p[k]];
        }
      }
    }
  }

  /** `drop_duplicates` keeps the relative order of the rows it keeps. */
  lemma DropDuplicatesInOrder(w: seq<CleanRow>) returns (pos: seq<nat>)
    ensures var r := DropDuplicates(w);
      |pos| == |r| &&
      (forall k :: 0 <= k < |pos| ==> pos[k] < |w| && r[k] == w[pos[k]]) &&
      (forall k1, k2 :: 0 <= k1 < k2 < |pos| ==> pos[k1] < pos[k2])
  {
    DropDuplicatesIsFirstOccurrences(w);
    pos := FirstOccurrencesInOrder(w);
  }

  /** Keep-first as a whole: no two rows of the result share a label, the
      labels are those of the input, and the rows kept are exactly the first
      row of each label. */
  lemma DropDuplicatesSpec(w: seq<CleanRow>)
    ensures var r := DropDuplicates(w);
      (forall i, j :: 0 <= i < j < |r| ==> r[i].labelClean != r[j].labelClean) &&
      Keys(r) == Keys(w) &&
      (forall x :: x in r ==> exists i :: 0 <= i < |w| && w[i] == x && IsFirstOf(w, i)) &&
      (forall i :: 0 <= i < |w| && IsFirstOf(w, i) ==> w[i] in r)
  {
    DropDuplicatesIsFirstOccurrences(w);
    FirstOccurrencesUnique(w);
    FirstOccurrencesKeepsFirsts(w);
  }

  /** `clean_labels` (lines 85-95) without the `fillna` of line 94. */
  function CleanLabels(rows: seq<Row>): (r: seq<CleanRow>)
    ensures |r| <= |rows|
    ensures forall i, j :: 0 <= i < j < |r| ==> r[i].labelClean != r[j].labelClean
  {
    DropDuplicates(WithLabelClean(rows))
  }

  /** A cleaned table: every row carries its own `label_clean`, no two rows
      share one, every label of the input survives, and the rows kept are
      exactly the first row of each label. */
  lemma CleanLabelsSpec(rows: seq<Row>)
    ensures var r := CleanLabels(rows); var w := WithLabelClean(rows);
      (forall k :: 0 <= k < |r| ==> HasOwnLabel(r[k])) &&
      (forall i, j :: 0 <= i < j < |r| ==> r[i].labelClean != r[j].labelClean) &&
      Keys(r) == Keys(w) &&
      (forall x :: x in r ==> exists i :: 0 <= i < |w| && w[i] == x && IsFirstOf(w, i)) &&
      (forall i :: 0 <= i < |w| && IsFirstOf(w, i) ==> w[i] in r)
  {
    var w := WithLabelClean(rows);
    assert forall i :: 0 <= i < |w| ==> HasOwnLabel(w[i]);
    DropDuplicatesSpec(w);
    KeepsOwnLabels(w);
  }

  /** The row carries the `label_clean` of its own label. */
  ghost predicate HasOwnLabel(x: CleanRow) {
    x.labelClean == LabelClean(x.row.name)
  }

  lemma KeepsOwnLabels(w: seq<CleanRow>)
    requires forall i :: 0 <= i < |w| ==> HasOwnLabel(w[i])
    ensures var r := DropDuplicates(w); forall k :: 0 <= k < |r| ==> HasOwnLabel(r[k])
  {
    DropDuplicatesSpec(w);
    var r := DropDuplicates(w);
    forall k | 0 <= k < |r| ensures HasOwnLabel(r[k]) {
      assert r[k] in r;
      var i :| 0 <= i < |w| && w[i] == r[k] && IsFirstOf(w, i);
    }
  }
}
