/** `to_float` (conversion.py lines 45-50): a token's text as a number. Values
    are exact `real`s; see README for the float rounding this leaves out. */
module Numbers {
  import opened Text
  import opened Results
  import opened Scanner

  predicate IsComma(c: char) { c == ',' }

  predicate AllDigits(s: string) {
    forall k :: 0 <= k < |s| ==> IsDigit(s[k])
  }

  function DigitValue(c: char): nat
    requires IsDigit(c)
  {
    c as int - '0' as int
  }

  /** The value of a string of decimal digits, most significant first. */
  function DigitsValue(ds: string): nat
    requires AllDigits(ds)
  {
    if ds == [] then 0 else 10 * DigitsValue(ds[..|ds| - 1]) + DigitValue(ds[|ds| - 1])
  }

  /** A fraction as the pattern writes it: empty, or `.` and digits. */
  predicate IsFraction(fr: string) {
    fr == [] || (|fr| >= 2 && fr[0] == '.' && AllDigits(fr[1..]))
  }

  /** The value of the digits after a decimal point: `ds` over ten to the
      number of digits. */
  function Decimals(ds: string): real
    requires AllDigits(ds)
  {
    if ds == [] then 0.0 else (DigitValue(ds[0]) as real + Decimals(ds[1..])) / 10.0
  }

  function FractionValue(fr: string): real
    requires IsFraction(fr)
  {
    if fr == [] then 0.0 else Decimals(fr[1..])
  }

  /** The unsigned part of `float(x)`: digits, and optionally a point and
      digits. */
  function Magnitude(b: string): Option<real> {
    var n := DigitRun(b, 0);
    if n == 0 then None
    else if n == |b| then Some(DigitsValue(b) as real)
    else if n + 1 < |b| && b[n] == '.' && DigitRun(b, n + 1) == |b| - n - 1 then
      Some(DigitsValue(b[..n]) as real + Decimals(b[n + 1..]))
    else None
  }

  /** `float(x)` on the strings a token can reach it as: an optional minus
      sign, digits, and optionally a point and digits. Every other such string,
      one that still holds a parenthesis, makes `float` raise, here `None`. */
  function ParseDecimal(x: string): Option<real> {
    var neg := |x| > 0 && x[0] == '-';
    match Magnitude(if neg then x[1..] else x)
    case None => None
    case Some(m) => Some(if neg then -m else m)
  }

  /** `to_float(x)`: drop the commas, then read what is left. The text of a
      `ValueError` is made of characters of `x` and holds no comma. */
  function ToFloat(x: string): (r: Result<real, string>)
    ensures r.Err? ==> forall c :: c in r.error ==> c in x && c != ','
  {
    RemoveSubset(x, IsComma);
    Unparen(Remove(x, IsComma))
  }

  /** The rest of `to_float`: a text that starts with `(` and ends with `)` is
      the negation of what is between them; `float` of anything else it cannot
      read raises `ValueError`, reported here with the string `float` was
      given. */
  function Unparen(y: string): (r: Result<real, string>)
    ensures r.Err? ==> forall c :: c in r.error ==> c in y
  {
    var neg := |y| > 0 && y[0] == '(' && y[|y| - 1] == ')';
    var z := if neg then y[1..|y| - 1] else y;
    match ParseDecimal(z)
    case None => Err(z)
    case Some(v) => Ok(if neg then -v else v)
  }

  /** `w` is what `float` can read: an optional minus sign (`g` is its length),
      the digits `w[g..n]`, and a fraction `w[n..]`. */
  predicate DecimalShape(w: string, g: nat, n: nat) {
    g <= 1 && g < n <= |w| && (g == 1 ==> w[0] == '-') &&
    AllDigits(w[g..n]) && IsFraction(w[n..])
  }

  /** The number such a string writes. */
  function ShapeValue(w: string, g: nat, n: nat): real
    requires DecimalShape(w, g, n)
  {
    var m := DigitsValue(w[g..n]) as real + FractionValue(w[n..]);
    if g == 1 then -m else m
  }

  lemma MagnitudeOfShape(b: string, n: nat)
    requires 1 <= n <= |b| && AllDigits(b[..n]) && IsFraction(b[n..])
    ensures Magnitude(b) == Some(DigitsValue(b[..n]) as real + FractionValue(b[n..]))
  {
    assert forall k :: 0 <= k < n ==> IsDigit(b[k]) by {
      forall k | 0 <= k < n ensures IsDigit(b[k]) { assert b[k] == b[..n][k]; }
    }
    DigitRunExact(b, 0, n);
    if n < |b| {
      assert b[n..][1..] == b[n + 1..];
      assert forall k :: n + 1 <= k < |b| ==> IsDigit(b[k]) by {
        forall k | n + 1 <= k < |b| ensures IsDigit(b[k]) { assert b[k] == b[n + 1..][k - n - 1]; }
      }
      DigitRunExact(b, n + 1, |b| - n - 1);
    } else {
      assert b[..n] == b;
    }
  }

  /** `float` reads a string of that shape as the number it writes. */
  lemma ParseDecimalOfShape(w: string, g: nat, n: nat)
    requires DecimalShape(w, g, n)
    ensures ParseDecimal(w) == Some(ShapeValue(w, g, n))
  {
    var b := w[g..];
    assert b[..n - g] == w[g..n];
    assert b[n - g..] == w[n..];
    MagnitudeOfShape(b, n - g);
    if g == 0 {
      assert b == w;
      assert IsDigit(w[g..n][0]);
    }
  }

  /** `float` raises on a string that starts with `(`. */
  lemma ParseDecimalOpen(m: string)
    ensures ParseDecimal("(" + m) == None
  {
    DigitRunExact("(" + m, 0, 0);
  }

  lemma MagnitudeClose(b: string, n: nat)
    requires 1 <= n < |b| && AllDigits(b[..n]) && IsFraction(b[n..|b| - 1]) && b[|b| - 1] == ')'
    ensures Magnitude(b) == None
  {
    assert forall k :: 0 <= k < n ==> IsDigit(b[k]) by {
      forall k | 0 <= k < n ensures IsDigit(b[k]) { assert b[k] == b[..n][k]; }
    }
    DigitRunExact(b, 0, n);
    if n < |b| - 1 {
      var ds := b[n..|b| - 1][1..];
      assert forall k :: n + 1 <= k < |b| - 1 ==> IsDigit(b[k]) by {
        forall k | n + 1 <= k < |b| - 1 ensures IsDigit(b[k]) { assert b[k] == ds[k - n - 1]; }
      }
      DigitRunExact(b, n + 1, |b| - n - 2);
    }
  }

  /** `float` raises on a string of that shape followed by `)`. */
  lemma ParseDecimalClose(w: string, g: nat, n: nat)
    requires DecimalShape(w, g, n)
    ensures ParseDecimal(w + ")") == None
  {
    var x := w + ")";
    var b := x[g..];
    assert b[..n - g] == w[g..n];
    assert b[n - g..|b| - 1] == w[n..];
    assert b[|b| - 1] == x[|x| - 1] == ')';
    MagnitudeClose(b, n - g);
    if g == 0 {
      assert b == x;
      assert IsDigit(w[g..n][0]);
    }
  }

  /** Such a string starts with the sign or a digit and ends with a digit. */
  lemma ShapeEnds(w: string, g: nat, n: nat)
    requires DecimalShape(w, g, n)
    ensures w[0] == '-' || IsDigit(w[0])
    ensures IsDigit(w[|w| - 1])
  {
    var d := w[g..n];
    var fr := w[n..];
    assert IsDigit(d[0]);
    if n == |w| {
      assert w[|w| - 1] == d[|d| - 1];
    } else {
      assert w[|w| - 1] == fr[1..][|fr| - 2];
    }
  }

  lemma UnparenPlain(w: string, g: nat, n: nat)
    requires DecimalShape(w, g, n)
    ensures Unparen(w).Ok? && Unparen(w).value == ShapeValue(w, g, n)
  {
    ShapeEnds(w, g, n);
    ParseDecimalOfShape(w, g, n);
  }

  lemma UnparenParens(w: string, g: nat, n: nat)
    requires DecimalShape(w, g, n)
    ensures Unparen("(" + w + ")").Ok? && Unparen("(" + w + ")").value == -ShapeValue(w, g, n)
  {
    var y := "(" + w + ")";
    InsideParens(w, y);
    ParseDecimalOfShape(w, g, n);
    UnparenInner(y, w);
  }

  lemma InsideParens(w: string, y: string)
    requires y == "(" + w + ")"
    ensures |y| >= 2 && y[0] == '(' && y[|y| - 1] == ')' && y[1..|y| - 1] == w
  {
  }

  /** Between matching parentheses `Unparen` reads the inner text, negated. */
  lemma UnparenInner(y: string, w: string)
    requires |y| >= 2 && y[0] == '(' && y[|y| - 1] == ')' && y[1..|y| - 1] == w
    requires ParseDecimal(w).Some?
    ensures Unparen(y).Ok? && Unparen(y).value == -ParseDecimal(w).value
  {
  }

  lemma UnparenOpenOnly(w: string, g: nat, n: nat)
    requires DecimalShape(w, g, n)
    ensures Unparen("(" + w).Err? && Unparen("(" + w).error == "(" + w
  {
    var y := "(" + w;
    ShapeEnds(w, g, n);
    assert y[|y| - 1] == w[|w| - 1];
    ParseDecimalOpen(w);
  }

  lemma UnparenCloseOnly(w: string, g: nat, n: nat)
    requires DecimalShape(w, g, n)
    ensures Unparen(w + ")").Err? && Unparen(w + ")").error == w + ")"
  {
    var y := w + ")";
    ShapeEnds(w, g, n);
    assert y[0] == w[0];
    ParseDecimalClose(w, g, n);
  }

  /** Reading a number that may stand between parentheses: it succeeds exactly
      when the parentheses are both there or both missing, and then an amount
      in parentheses is the negation of the amount; otherwise `float` raises
      on the text with its parenthesis. */
  lemma UnparenOfParts(a: string, w: string, b: string, g: nat, n: nat)
    requires a == "" || a == "("
    requires b == "" || b == ")"
    requires DecimalShape(w, g, n)
    ensures Unparen(a + w + b).Ok? <==> ((a == "(") == (b == ")"))
    ensures Unparen(a + w + b).Ok? ==>
      Unparen(a + w + b).value == if a == "(" then -ShapeValue(w, g, n) else ShapeValue(w, g, n)
    ensures Unparen(a + w + b).Err? ==> Unparen(a + w + b).error == a + w + b
  {
    var y := a + w + b;
    if a == "(" && b == ")" {
      assert y == "(" + w + ")";
      UnparenParens(w, g, n);
    } else if a == "(" {
      assert y == "(" + w;
      UnparenOpenOnly(w, g, n);
    } else if b == ")" {
      assert y == w + ")";
      UnparenCloseOnly(w, g, n);
    } else {
      assert y == w;
      UnparenPlain(w, g, n);
    }
  }

  /** The same for `to_float` of any text `t` that reads as those parts once
      its commas are gone, stated with `t`'s first character `first`, its last
      character `last` and the value `v` the parts write. */
  lemma ToFloatOfParts(t: string, first: char, last: char, v: real,
                       a: string, w: string, b: string, g: nat, n: nat)
    requires Remove(t, IsComma) == a + w + b
    requires (a == "" || a == "(") && (b == "" || b == ")")
    requires (first == '(' <==> a == "(") && (last == ')' <==> b == ")")
    requires DecimalShape(w, g, n) && v == ShapeValue(w, g, n)
    ensures ToFloat(t).Ok? <==> ((first == '(') == (last == ')'))
    ensures ToFloat(t).Ok? ==> ToFloat(t).value == if first == '(' then -v else v
    ensures ToFloat(t).Err? ==> ToFloat(t).error == Remove(t, IsComma)
  {
    UnparenOfParts(a, w, b, g, n);
  }

  /** Leaving out its commas, a run of groups is a run of digits. */
  lemma {:induction false} GroupsDigits(s: string, i: nat, j: nat)
    requires Groups(s, i, j)
    ensures j <= |s| && |Remove(s[i..j], IsComma)| >= 1 && AllDigits(Remove(s[i..j], IsComma))
    decreases j - i
  {
    var g := s[i..i + 4];
    assert Remove(g, IsComma) == g[1..] by {
      assert g == [','] + g[1..];
      RemoveAppend([','], g[1..], IsComma);
      RemoveKept(g[1..], IsComma);
    }
    if j > i + 4 {
      GroupsDigits(s, i + 4, j);
      assert s[i..j] == g + s[i + 4..j];
      RemoveAppend(g, s[i + 4..j], IsComma);
    } else {
      assert s[i..j] == g;
    }
  }

  /** Leaving out its commas, the integer part of a token is a run of digits. */
  lemma IntPartDigits(s: string, i: nat, j: nat)
    requires IntPart(s, i, j)
    ensures i < j <= |s| && |Remove(s[i..j], IsComma)| >= 1 && AllDigits(Remove(s[i..j], IsComma))
  {
    if k: nat :| i < k <= i + 3 && Digits(s, i, k) && Groups(s, k, j) {
      GroupsDigits(s, k, j);
      assert s[i..j] == s[i..k] + s[k..j];
      RemoveAppend(s[i..k], s[k..j], IsComma);
      RemoveKept(s[i..k], IsComma);
    } else {
      RemoveKept(s[i..j], IsComma);
    }
  }

  /** The number a token `s[p..e]`, cut at `k`, writes: its digits without the
      commas, its fraction, and its minus sign; the parentheses are not
      counted. */
  ghost function WrittenValue(s: string, p: nat, e: nat, k: Cuts): real
    requires Fits(s, p, e, k)
  {
    IntPartDigits(s, k.afterSign, k.afterInt);
    var magnitude := DigitsValue(Remove(s[k.afterSign..k.afterInt], IsComma)) as real +
      FractionValue(s[k.afterInt..k.afterFrac]);
    if k.afterSign > k.afterOpen then -magnitude else magnitude
  }

  /** Commas never matter to `to_float`. */
  lemma CommasIgnored(x: string)
    ensures ToFloat(Remove(x, IsComma)) == ToFloat(x)
  {
    RemoveIdempotent(x, IsComma);
  }

  lemma {:induction false} GroupsEnd(s: string, i: nat, j: nat)
    requires Groups(s, i, j)
    ensures i < j <= |s| && IsDigit(s[j - 1])
    decreases j - i
  {
    if j > i + 4 {
      GroupsEnd(s, i + 4, j);
    }
  }

  /** The integer part of a token starts and ends with a digit. */
  lemma IntPartEnds(s: string, i: nat, j: nat)
    requires IntPart(s, i, j)
    ensures i < j <= |s| && IsDigit(s[i]) && IsDigit(s[j - 1])
  {
    if k: nat :| i < k <= i + 3 && Digits(s, i, k) && Groups(s, k, j) {
      GroupsEnd(s, k, j);
    }
  }

  lemma SliceParts(s: string, a: nat, b: nat, c: nat, d: nat, e: nat, f: nat)
    requires a <= b <= c <= d <= e <= f <= |s|
    ensures s[a..f] == s[a..b] + s[b..c] + s[c..d] + s[d..e] + s[e..f]
  {
    assert s[a..c] == s[a..b] + s[b..c];
    assert s[a..d] == s[a..c] + s[c..d];
    assert s[a..e] == s[a..d] + s[d..e];
    assert s[a..f] == s[a..e] + s[e..f];
  }

  lemma OptionalText(s: string, i: nat, j: nat, ch: char)
    requires j <= |s| && Optional(s, i, j, ch)
    ensures s[i..j] == (if j > i then [ch] else [])
  {
    if j > i {
      assert s[i..j] == [s[i]];
    }
  }

  lemma Regroup(a: string, b: string, c: string, d: string, e: string)
    ensures a + b + c + d + e == a + (b + c + d) + e
  {
  }

  lemma RemoveParts(a: string, b: string, c: string, d: string, e: string)
    requires Remove(a, IsComma) == a && Remove(b, IsComma) == b
    requires Remove(d, IsComma) == d && Remove(e, IsComma) == e
    ensures Remove(a + b + c + d + e, IsComma) == a + b + Remove(c, IsComma) + d + e
  {
    RemoveAppend(a, b, IsComma);
    RemoveAppend(a + b, c, IsComma);
    RemoveAppend(a + b + c, d, IsComma);
    RemoveAppend(a + b + c + d, e, IsComma);
  }

  /** The cuts of a token are in order. */
  lemma FitsOrdered(s: string, p: nat, e: nat, k: Cuts)
    requires Fits(s, p, e, k)
    ensures p <= k.afterOpen <= k.afterSign < k.afterInt <= k.afterFrac <= e <= |s|
  {
    IntPartEnds(s, k.afterSign, k.afterInt);
  }

  /** The parenthesis pieces of a token, and its first and last character: the
      first is `(` exactly when `\(?` took one, the last is `)` exactly when
      `\)?` did. */
  lemma TokenEdges(s: string, p: nat, e: nat, k: Cuts)
    requires Fits(s, p, e, k)
    ensures p < e && (s[p] == '(' <==> k.afterOpen > p) && (s[e - 1] == ')' <==> e > k.afterFrac)
    ensures s[p..k.afterOpen] == (if k.afterOpen > p then "(" else "")
    ensures s[k.afterFrac..e] == (if e > k.afterFrac then ")" else "")
  {
    FitsOrdered(s, p, e, k);
    OptionalText(s, p, k.afterOpen, '(');
    OptionalText(s, k.afterFrac, e, ')');
    IntPartEnds(s, k.afterSign, k.afterInt);
    if k.afterFrac > k.afterInt {
      assert Digits(s, k.afterInt + 1, k.afterFrac);
    }
  }

  /** A token without its commas: only the integer part holds any. */
  lemma TokenRemove(s: string, p: nat, e: nat, k: Cuts)
    requires Fits(s, p, e, k)
    ensures p <= k.afterOpen <= k.afterSign < k.afterInt <= k.afterFrac <= e <= |s|
    ensures Remove(s[p..e], IsComma) ==
      s[p..k.afterOpen] + s[k.afterOpen..k.afterSign] + Remove(s[k.afterSign..k.afterInt], IsComma) +
      s[k.afterInt..k.afterFrac] + s[k.afterFrac..e]
  {
    FitsOrdered(s, p, e, k);
    OptionalText(s, p, k.afterOpen, '(');
    OptionalText(s, k.afterOpen, k.afterSign, '-');
    OptionalText(s, k.afterFrac, e, ')');
    FractionText(s, k.afterInt, k.afterFrac);
    SymbolNoComma(s[p..k.afterOpen], '(');
    SymbolNoComma(s[k.afterOpen..k.afterSign], '-');
    SymbolNoComma(s[k.afterFrac..e], ')');
    FractionNoComma(s[k.afterInt..k.afterFrac]);
    RemovePieces(s, p, k.afterOpen, k.afterSign, k.afterInt, k.afterFrac, e);
  }

  lemma SymbolNoComma(x: string, ch: char)
    requires ch != ',' && x == (if |x| > 0 then [ch] else [])
    ensures Remove(x, IsComma) == x
  {
    RemoveKept(x, IsComma);
  }

  lemma FractionNoComma(fr: string)
    requires IsFraction(fr)
    ensures Remove(fr, IsComma) == fr
  {
    forall i | 0 <= i < |fr| ensures !IsComma(fr[i]) {
      if i > 0 {
        assert fr[i] == fr[1..][i - 1];
      }
    }
    RemoveKept(fr, IsComma);
  }

  /** Removing the commas of five consecutive pieces, of which only the middle
      one can hold any. */
  lemma RemovePieces(s: string, p: nat, o: nat, r: nat, c: nat, f: nat, e: nat)
    requires p <= o <= r <= c <= f <= e <= |s|
    requires Remove(s[p..o], IsComma) == s[p..o] && Remove(s[o..r], IsComma) == s[o..r]
    requires Remove(s[c..f], IsComma) == s[c..f] && Remove(s[f..e], IsComma) == s[f..e]
    ensures Remove(s[p..e], IsComma) == s[p..o] + s[o..r] + Remove(s[r..c], IsComma) + s[c..f] + s[f..e]
  {
    SliceParts(s, p, o, r, c, f, e);
    RemoveParts(s[p..o], s[o..r], s[r..c], s[c..f], s[f..e]);
  }

  /** The sign, the digits without commas and the fraction of a token. */
  lemma TokenPieces(s: string, p: nat, e: nat, k: Cuts) returns (sign: string, d: string, fr: string)
    requires Fits(s, p, e, k)
    ensures p <= k.afterOpen <= k.afterSign < k.afterInt <= k.afterFrac <= e <= |s|
    ensures sign == s[k.afterOpen..k.afterSign] && d == Remove(s[k.afterSign..k.afterInt], IsComma)
    ensures fr == s[k.afterInt..k.afterFrac]
    ensures sign == (if k.afterSign > k.afterOpen then "-" else "")
    ensures |d| >= 1 && AllDigits(d) && IsFraction(fr)
  {
    FitsOrdered(s, p, e, k);
    IntPartDigits(s, k.afterSign, k.afterInt);
    OptionalText(s, k.afterOpen, k.afterSign, '-');
    FractionText(s, k.afterInt, k.afterFrac);
    sign, d, fr := s[k.afterOpen..k.afterSign], Remove(s[k.afterSign..k.afterInt], IsComma), s[k.afterInt..k.afterFrac];
  }

  lemma WrittenValueOf(s: string, p: nat, e: nat, k: Cuts, d: string, fr: string)
    requires Fits(s, p, e, k)
    requires k.afterSign <= k.afterInt <= k.afterFrac <= |s|
    requires d == Remove(s[k.afterSign..k.afterInt], IsComma) && fr == s[k.afterInt..k.afterFrac]
    requires AllDigits(d) && IsFraction(fr)
    ensures WrittenValue(s, p, e, k) ==
      (var m := DigitsValue(d) as real + FractionValue(fr); if k.afterSign > k.afterOpen then -m else m)
  {
  }

  /** The text of a fraction of the pattern is a fraction `float` reads. */
  lemma FractionText(s: string, i: nat, j: nat)
    requires j <= |s| && Fraction(s, i, j)
    ensures i <= j && IsFraction(s[i..j])
  {
    if j > i {
      var fr := s[i..j];
      forall m | 0 <= m < |fr[1..]| ensures IsDigit(fr[1..][m]) {
        assert fr[1..][m] == s[i + 1 + m];
      }
    }
  }

  /** An optional minus sign, digits and a fraction have the shape `float`
      reads, and write the digits' value plus the fraction, negated after a
      sign. */
  lemma ShapeOfPieces(sign: string, d: string, fr: string)
    requires sign == "" || sign == "-"
    requires |d| >= 1 && AllDigits(d) && IsFraction(fr)
    ensures var w := sign + d + fr; var g := |sign|;
      DecimalShape(w, g, g + |d|) &&
      ShapeValue(w, g, g + |d|) ==
        (var m := DigitsValue(d) as real + FractionValue(fr); if g == 1 then -m else m)
  {
    var w := sign + d + fr;
    var g, n := |sign|, |sign| + |d|;
    PiecesSlices(sign, d, fr, w);
    ShapeValueOf(w, g, n, d, fr);
  }

  lemma PiecesSlices(a: string, b: string, c: string, w: string)
    requires w == a + b + c
    ensures w[|a|..|a| + |b|] == b && w[|a| + |b|..] == c && (|a| > 0 ==> w[0] == a[0])
  {
    forall i | 0 <= i < |b| ensures w[|a|..|a| + |b|][i] == b[i] {
      assert w[|a| + i] == (a + b)[|a| + i];
    }
    forall i | 0 <= i < |c| ensures w[|a| + |b|..][i] == c[i] {
      assert w[|a| + |b| + i] == c[i];
    }
  }

  lemma ShapeValueOf(w: string, g: nat, n: nat, d: string, fr: string)
    requires g <= 1 && g < n <= |w| && (g == 1 ==> w[0] == '-')
    requires w[g..n] == d && w[n..] == fr && AllDigits(d) && IsFraction(fr)
    ensures DecimalShape(w, g, n)
    ensures ShapeValue(w, g, n) == (var m := DigitsValue(d) as real + FractionValue(fr); if g == 1 then -m else m)
  {
  }

  /** `to_float` of any token `s[p..e]` of the pattern, cut at `k`: it
      succeeds exactly when the token's parentheses are balanced; the value
      is the number the token writes, negated when it stands in parentheses;
      otherwise `to_float` raises on the token without its commas. */
  lemma TokenValue(s: string, p: nat, e: nat, k: Cuts)
    requires Fits(s, p, e, k)
    ensures p < e
    ensures ToFloat(s[p..e]).Ok? <==> ((s[p] == '(') == (s[e - 1] == ')'))
    ensures ToFloat(s[p..e]).Ok? ==>
      ToFloat(s[p..e]).value == if s[p] == '(' then -WrittenValue(s, p, e, k) else WrittenValue(s, p, e, k)
    ensures ToFloat(s[p..e]).Err? ==> ToFloat(s[p..e]).error == Remove(s[p..e], IsComma)
  {
    var a, w, b, g, n := TokenParts(s, p, e, k);
    ToFloatOfParts(s[p..e], s[p], s[e - 1], WrittenValue(s, p, e, k), a, w, b, g, n);
  }

  /** A token in pieces: its parenthesis `a`, its sign, digits and fraction
      `w` with the commas left out, and its closing parenthesis `b`. */
  lemma TokenParts(s: string, p: nat, e: nat, k: Cuts) returns (a: string, w: string, b: string, g: nat, n: nat)
    requires Fits(s, p, e, k)
    ensures p < e <= |s|
    ensures Remove(s[p..e], IsComma) == a + w + b
    ensures (a == "" || a == "(") && (b == "" || b == ")")
    ensures (s[p] == '(' <==> a == "(") && (s[e - 1] == ')' <==> b == ")")
    ensures DecimalShape(w, g, n) && WrittenValue(s, p, e, k) == ShapeValue(w, g, n)
  {
    var d := Remove(s[k.afterSign..k.afterInt], IsComma);
    a, b := s[p..k.afterOpen], s[k.afterFrac..e];
    w := s[k.afterOpen..k.afterSign] + d + s[k.afterInt..k.afterFrac];
    g := k.afterSign - k.afterOpen;
    n := g + |d|;
    var sign, d', fr := TokenPieces(s, p, e, k);
    ShapeOfPieces(sign, d, fr);
    WrittenValueOf(s, p, e, k, d, fr);
    assert Remove(s[p..e], IsComma) == a + w + b by {
      TokenRemove(s, p, e, k);
      Regroup(a, s[k.afterOpen..k.afterSign], d, s[k.afterInt..k.afterFrac], b);
    }
    assert (a == "" || a == "(") && (b == "" || b == ")") &&
      (s[p] == '(' <==> a == "(") && (s[e - 1] == ')' <==> b == ")") by {
      TokenEdges(s, p, e, k);
    }
  }

  /** The number the scanner's match at `p` writes. */
  ghost function MatchValue(s: string, p: nat): real
    requires p <= |s| && MatchAt(s, p).Some?
  {
    MatchSound(s, p);
    WrittenValue(s, p, MatchAt(s, p).value, CutsAt(s, p))
  }

  /** Every number `findall` returns goes through `to_float` exactly when its
      parentheses are balanced, giving the value it writes, negated in
      parentheses. */
  lemma TokenToFloat(s: string, p: nat, e: nat)
    requires p <= |s| && MatchAt(s, p) == Some(e)
    ensures p < e <= |s|
    ensures ToFloat(s[p..e]).Ok? <==> ((s[p] == '(') == (s[e - 1] == ')'))
    ensures ToFloat(s[p..e]).Ok? ==>
      ToFloat(s[p..e]).value == if s[p] == '(' then -MatchValue(s, p) else MatchValue(s, p)
    ensures ToFloat(s[p..e]).Err? ==> ToFloat(s[p..e]).error == Remove(s[p..e], IsComma)
  {
    MatchSound(s, p);
    assert MatchValue(s, p) == WrittenValue(s, p, e, CutsAt(s, p));
    TokenValue(s, p, e, CutsAt(s, p));
  }

  /** A parenthesised amount is negative: `"(1,234)"` is -1234. */
  lemma NegativeExample()
    ensures ToFloat("(1,234)") == Ok(-1234.0)
  {
    CommaExample();
    ReadExample();
    assert "(1234)"[1..5] == "1234";
  }

  lemma CommaExample()
    ensures Remove("(1,234)", IsComma) == "(1234)"
  {
    var a, c := "(1", "234)";
    assert "(1,234)" == a + "," + c;
    RemoveOneComma(a, c);
    assert a + c == "(1234)";
  }

  /** One comma between two comma-free texts is all `Remove` drops. */
  lemma RemoveOneComma(a: string, c: string)
    requires forall i :: 0 <= i < |a| ==> !IsComma(a[i])
    requires forall i :: 0 <= i < |c| ==> !IsComma(c[i])
    ensures Remove(a + "," + c, IsComma) == a + c
  {
    var comma: string := ",";
    var front := a + comma;
    RemoveDropped(comma, IsComma);
    RemoveKept(a, IsComma);
    RemoveAppend(a, comma, IsComma);
    assert a + [] == a;
    assert Remove(front, IsComma) == a;
    RemoveKept(c, IsComma);
    RemoveAppend(front, c, IsComma);
    assert Remove(front + c, IsComma) == a + c;
  }

  lemma ReadExample()
    ensures ParseDecimal("1234") == Some(1234.0)
  {
    assert DigitRun("1234", 0) == 4;
    assert DigitsValue("1") == 1;
    assert "12"[..1] == "1";
    assert DigitsValue("12") == 12;
    assert "123"[..2] == "12";
    assert DigitsValue("123") == 123;
    assert "1234"[..3] == "123";
    assert DigitsValue("1234") == 1234;
  }
}
