/** The line cleaner: the loop that turns the extracted lines into `clean_lines`
    (conversion.py, lines 20-25). */
module Cleaning {
  import opened Text

  /** The substitutions of lines 22-23 as one map on characters: `!` (a misread
      dollar sign) becomes `$`, the right single quotation mark becomes `'` and the
      em dash becomes `-`. Nothing else, in particular no en dash, is touched. */
  function SubstChar(c: char): char {
    if c == '!' then '$'
    else if c == '\U{2019}' then '\''
    else if c == '\U{2014}' then '-'
    else c
  }

  /** The four `str.replace` calls of lines 22-23, in order (the last repeats the
      em dash under its escape and changes nothing). */
  function Substitute(ln: string): string {
    var a := ReplaceChar(ln, '!', '$');
    var b := ReplaceChar(a, '\U{2019}', '\'');
    var c := ReplaceChar(b, '\U{2014}', '-');
    ReplaceChar(c, '\U{2014}', '-')
  }

  /** The chain of replacements acts character by character, as `SubstChar`. */
  lemma SubstituteIsPointwise(ln: string)
    ensures |Substitute(ln)| == |ln|
    ensures forall i :: 0 <= i < |ln| ==> Substitute(ln)[i] == SubstChar(ln[i])
  {
  }

  /** Length of the run of whitespace at the front of `s`. */
  function SpaceRun(s: string): (n: nat)
    ensures n <= |s|
    ensures forall i :: 0 <= i < n ==> IsSpace(s[i])
    ensures n < |s| ==> !IsSpace(s[n])
  {
    if s != [] && IsSpace(s[0]) then 1 + SpaceRun(s[1..]) else 0
  }

  /** No two adjacent characters of `s` are both whitespace. */
  ghost predicate NoDoubleSpace(s: string) {
    forall i :: 0 <= i < |s| - 1 ==> !(IsSpace(s[i]) && IsSpace(s[i + 1]))
  }

  /** `re.sub(r'\s{2,}', ' ', s)` (line 24): left to right, each maximal run of two
      or more whitespace characters is replaced by one space; a lone whitespace
      character stays as it is. */
  function CollapseSpaces(s: string): (r: string)
    ensures |r| <= |s|
    decreases |s|
  {
    if s == [] then []
    else if |s| >= 2 && IsSpace(s[0]) && IsSpace(s[1]) then " " + CollapseSpaces(s[SpaceRun(s)..])
    else [s[0]] + CollapseSpaces(s[1..])
  }

  /** The collapse never lengthens a string, starts with whitespace exactly
      when the string does, leaves no two adjacent whitespace characters and
      adds no character but a space. */
  lemma {:induction false} CollapseShape(s: string)
    ensures var r := CollapseSpaces(s);
      |r| <= |s| &&
      (|s| > 0 ==> |r| > 0 && (IsSpace(r[0]) <==> IsSpace(s[0]))) &&
      NoDoubleSpace(r) &&
      (forall c :: c in r ==> c == ' ' || c in s)
    decreases |s|
  {
    if s != [] {
      var run := |s| >= 2 && IsSpace(s[0]) && IsSpace(s[1]);
      var k := if run then SpaceRun(s) else 1;
      var t := s[k..];
      CollapseShape(t);
      assert forall c :: c in t ==> c in s;
      var r, rt := CollapseSpaces(s), CollapseSpaces(t);
      assert r == (if run then " " else [s[0]]) + rt;
      if t != [] {
        assert t[0] == s[k];
      }
      forall i | 0 <= i < |r| - 1 ensures !(IsSpace(r[i]) && IsSpace(r[i + 1])) {
        if i > 0 {
          assert r[i] == rt[i - 1] && r[i + 1] == rt[i];
        }
      }
    }
  }

  /** `s` with every whitespace character removed. */
  function NonSpace(s: string): string {
    Remove(s, IsSpace)
  }

  /** Collapsing keeps every non-whitespace character, in order. */
  lemma {:induction false} CollapseKeepsText(s: string)
    ensures NonSpace(CollapseSpaces(s)) == NonSpace(s)
    decreases |s|
  {
    if s == [] {
    } else if |s| >= 2 && IsSpace(s[0]) && IsSpace(s[1]) {
      var k := SpaceRun(s);
      CollapseKeepsText(s[k..]);
      RemoveAppend(" ", CollapseSpaces(s[k..]), IsSpace);
      assert s == s[..k] + s[k..];
      RemoveAppend(s[..k], s[k..], IsSpace);
      RemoveDropped(s[..k], IsSpace);
    } else {
      CollapseKeepsText(s[1..]);
      RemoveAppend([s[0]], CollapseSpaces(s[1..]), IsSpace);
    }
  }

  /** The leading whitespace run of `a` is that of `a + t` when it ends
      inside `a`. */
  lemma SpaceRunPrefix(a: string, t: string)
    requires SpaceRun(a) < |a|
    ensures SpaceRun(a + t) == SpaceRun(a)
  {
    var n, m := SpaceRun(a + t), SpaceRun(a);
    assert (a + t)[m] == a[m];
  }

  /** A run `w` of whitespace between two other characters becomes exactly one
      space when it has two characters or more, and is kept when it has one;
      the text around it is collapsed on its own. */
  lemma {:induction false} CollapseRun(a: string, w: string, b: string)
    requires a == [] || !IsSpace(a[|a| - 1])
    requires |w| >= 1 && forall i :: 0 <= i < |w| ==> IsSpace(w[i])
    requires b == [] || !IsSpace(b[0])
    ensures CollapseSpaces(a + w + b) == CollapseSpaces(a) + (if |w| >= 2 then " " else w) + CollapseSpaces(b)
  {
    CollapseAppend(a, w + b);
    CollapseLeadingRun(w, b);
    AppendAssoc(a, w, b);
    AppendAssoc(CollapseSpaces(a), if |w| >= 2 then " " else w, CollapseSpaces(b));
  }

  /** The run at the front of `w + b`. */
  lemma {:induction false} CollapseLeadingRun(w: string, b: string)
    requires |w| >= 1 && forall i :: 0 <= i < |w| ==> IsSpace(w[i])
    requires b == [] || !IsSpace(b[0])
    ensures CollapseSpaces(w + b) == (if |w| >= 2 then " " else w) + CollapseSpaces(b)
  {
    var s := w + b;
    assert s[|w| - 1] == w[|w| - 1];
    if |s| > |w| {
      assert s[|w|] == b[0];
    }
    assert s[0] == w[0];
    if |w| >= 2 {
      assert s[1] == w[1];
      assert SpaceRun(s) == |w|;
      assert s[|w|..] == b;
    } else {
      assert s[1..] == b;
    }
  }

  /** The collapse works on the two sides of a character that is not
      whitespace independently. */
  lemma {:induction false} CollapseAppend(x: string, y: string)
    requires x == [] || !IsSpace(x[|x| - 1])
    ensures CollapseSpaces(x + y) == CollapseSpaces(x) + CollapseSpaces(y)
    decreases |x|
  {
    if x == [] {
      assert x + y == y;
    } else {
      var k, head := CollapseStep(x, y);
      CollapseAppend(x[k..], y);
      AppendAssoc(head, CollapseSpaces(x[k..]), CollapseSpaces(y));
    }
  }

  /** One step of the collapse on `x + y` stays inside `x` when `x` ends with a
      character that is not whitespace: it turns the first `k` characters into
      `head` on `x + y` as on `x`. */
  lemma {:induction false} CollapseStep(x: string, y: string) returns (k: nat, head: string)
    requires x != [] && !IsSpace(x[|x| - 1])
    ensures 1 <= k <= |x|
    ensures CollapseSpaces(x + y) == head + CollapseSpaces(x[k..] + y)
    ensures CollapseSpaces(x) == head + CollapseSpaces(x[k..])
  {
    var s := x + y;
    assert s[0] == x[0];
    if |x| >= 2 {
      assert s[1] == x[1];
    }
    if |x| >= 2 && IsSpace(x[0]) && IsSpace(x[1]) {
      k, head := SpaceRun(x), " ";
      assert k < |x|;
      SpaceRunPrefix(x, y);
      assert s[k..] == x[k..] + y;
    } else {
      k, head := 1, [x[0]];
      assert s[1..] == x[1..] + y;
    }
  }

  /** A string is left alone by the collapse exactly when it has no two adjacent
      whitespace characters. */
  lemma {:induction false} CollapseFixpoint(s: string)
    ensures CollapseSpaces(s) == s <==> NoDoubleSpace(s)
    decreases |s|
  {
    if s == [] {
    } else if |s| >= 2 && IsSpace(s[0]) && IsSpace(s[1]) {
      assert !NoDoubleSpace(s);
      CollapseShape(s[SpaceRun(s)..]);
      assert |CollapseSpaces(s)| < |s|;
    } else {
      CollapseFixpoint(s[1..]);
      NoDoubleSpaceTail(s);
    }
  }

  /** Without whitespace in both of its first two places, a string has no two
      adjacent whitespace characters exactly when its tail has none. */
  lemma NoDoubleSpaceTail(s: string)
    requires s != [] && !(|s| >= 2 && IsSpace(s[0]) && IsSpace(s[1]))
    ensures NoDoubleSpace(s) <==> NoDoubleSpace(s[1..])
  {
    if NoDoubleSpace(s[1..]) {
      forall i | 0 <= i < |s| - 1
        ensures !(IsSpace(s[i]) && IsSpace(s[i + 1]))
      {
        if i > 0 { assert s[i] == s[1..][i - 1] && s[i + 1] == s[1..][i]; }
      }
    }
    if NoDoubleSpace(s) {
      forall i | 0 <= i < |s[1..]| - 1
        ensures !(IsSpace(s[1..][i]) && IsSpace(s[1..][i + 1]))
      {
        assert s[1..][i] == s[i + 1] && s[1..][i + 1] == s[i + 2];
      }
    }
  }

  /** Line 25's `strip()` after the substitutions and the collapse. Every
      cleaned line has no `!`, right quote or em dash left, no two adjacent
      whitespace characters and no whitespace at either end. */
  function CleanLine(ln: string): (r: string)
    ensures IsCleanLine(r)
  {
    var a := Substitute(ln);
    SubstituteRemovesSymbols(ln);
    CollapseShape(a);
    TrimSpaces(CollapseSpaces(a));
    Trim(CollapseSpaces(a), IsSpace)
  }

  /** What a cleaned line looks like. */
  ghost predicate IsCleanLine(s: string) {
    (forall c :: c in s ==> c != '!' && c != '\U{2019}' && c != '\U{2014}') &&
    NoDoubleSpace(s) &&
    (s != [] ==> !IsSpace(s[0]) && !IsSpace(s[|s| - 1]))
  }

  /** The substitutions leave no `!`, right quote or em dash behind. */
  lemma SubstituteRemovesSymbols(ln: string)
    ensures forall c :: c in Substitute(ln) ==> c != '!' && c != '\U{2019}' && c != '\U{2014}'
  {
    SubstituteIsPointwise(ln);
  }

  /** What `strip()` keeps of a line: a piece of it with no whitespace at either
      end. */
  lemma TrimSpaces(b: string)
    ensures forall c :: c in Trim(b, IsSpace) ==> c in b
    ensures NoDoubleSpace(b) ==> NoDoubleSpace(Trim(b, IsSpace))
    ensures var r := Trim(b, IsSpace); r != [] ==> !IsSpace(r[0]) && !IsSpace(r[|r| - 1])
  {
    TrimSubset(b, IsSpace);
    var i, j := TrimCuts(b, IsSpace);
    if NoDoubleSpace(b) {
      PieceNoDoubleSpace(b, i, j);
    }
  }

  lemma PieceNoDoubleSpace(b: string, i: nat, j: nat)
    requires i <= j <= |b| && NoDoubleSpace(b)
    ensures NoDoubleSpace(b[i..j])
  {
    var r := b[i..j];
    forall k | 0 <= k < |r| - 1
      ensures !(IsSpace(r[k]) && IsSpace(r[k + 1]))
    {
      assert r[k] == b[i + k] && r[k + 1] == b[i + k + 1];
    }
  }

  /** Cleaning removes or merges whitespace only: the other characters survive the
      substitutions in order. */
  lemma CleanLineKeepsText(ln: string)
    ensures NonSpace(CleanLine(ln)) == NonSpace(Substitute(ln))
  {
    TrimKeepsRest(CollapseSpaces(Substitute(ln)), IsSpace);
    CollapseKeepsText(Substitute(ln));
  }

  /** A line is its own cleaning exactly when it is already clean; in particular
      cleaning twice is cleaning once. */
  lemma CleanLineFixpoint(s: string)
    ensures CleanLine(s) == s <==> IsCleanLine(s)
  {
    if IsCleanLine(s) {
      SubstituteIsPointwise(s);
      assert Substitute(s) == s by {
        forall i | 0 <= i < |s| ensures Substitute(s)[i] == s[i] {
          assert s[i] in s;
        }
      }
      CollapseFixpoint(s);
      var r := Trim(s, IsSpace);
      var i, j := TrimCuts(s, IsSpace);
      if s != [] {
        assert i == 0 && j == |s|;
      }
    }
  }

  /** The list `clean_lines`: every extracted line cleaned, in order. */
  function CleanedLines(rawLines: seq<string>): (r: seq<string>)
    ensures |r| == |rawLines|
    ensures forall i :: 0 <= i < |rawLines| ==> r[i] == CleanLine(rawLines[i])
    ensures forall i :: 0 <= i < |r| ==> IsCleanLine(r[i])
  {
    seq(|rawLines|, i requires 0 <= i < |rawLines| => CleanLine(rawLines[i]))
  }

  /** The loop of lines 20-25: every extracted line is cleaned, in order. */
  method CleanLines(rawLines: seq<string>) returns (cleanLines: seq<string>)
    ensures cleanLines == CleanedLines(rawLines)
  {
    ghost var all := CleanedLines(rawLines);
    cleanLines := [];
    for n := 0 to |rawLines|
      invariant cleanLines == all[..n]
    {
      var ln := CleanOneLine(rawLines[n]);
      PrefixStep(all, n, ln);
      cleanLines := cleanLines + [ln];
    }
    assert all[..|rawLines|] == all;
  }

  /** The prefix of `all` one item longer. */
  lemma PrefixStep(all: seq<string>, n: nat, x: string)
    requires n < |all| && all[n] == x
    ensures all[..n + 1] == all[..n] + [x]
  {
  }

  /** The body of the loop on one line (lines 22-25). */
  method CleanOneLine(raw: string) returns (ln: string)
    ensures ln == CleanLine(raw)
  {
    ln := ReplaceChar(raw, '!', '$');
    ln := ReplaceChar(ReplaceChar(ReplaceChar(ln, '\U{2019}', '\''), '\U{2014}', '-'), '\U{2014}', '-');
    ln := CollapseSpaces(ln);
    ln := Trim(ln, IsSpace);
  }
}
