/** The numeric-token scanner: the pattern `BIG_NUM_RE` of conversion.py line 28,

      \(?-?(?:\d{1,3}(?:,\d{3})+|\d{4,})(?:\.\d+)?\)?

    as `findall` and `search` use it. `MatchAt` follows the backtracking
    matcher step by step; `IsToken` is the language of the pattern, written
    independently, and the lemmas show that `MatchAt` returns the longest
    token at a position and that `Tokens` is the leftmost, non-overlapping
    list of such matches. */
module Scanner {
  import opened Text
  import opened Results

  /** A match: the half-open range `start..end` of the line. */
  datatype Span = Span(start: nat, end: nat)

  /** A group `,ddd` starts at position `i`. */
  predicate GroupAt(s: string, i: nat) {
    i + 4 <= |s| && s[i] == ',' && IsDigit(s[i + 1]) && IsDigit(s[i + 2]) && IsDigit(s[i + 3])
  }

  /** How many groups `,ddd` follow each other from `i`: the greedy `(?:,\d{3})+`. */
  function GroupRun(s: string, i: nat): (n: nat)
    requires i <= |s|
    ensures i + 4 * n <= |s|
    decreases |s| - i
  {
    if GroupAt(s, i) then 1 + GroupRun(s, i + 4) else 0
  }

  /** Where `\d{1,3}(?:,\d{3})+|\d{4,}` ends when it is tried at `r`. The first
      alternative is tried first: `\d{1,3}` takes up to three digits and backs
      off one at a time, so it succeeds only when the whole digit run has one
      to three digits and is followed by a group. The second alternative takes
      the whole digit run if it has four digits or more. */
  function IntEnd(s: string, r: nat): (c: Option<nat>)
    requires r <= |s|
    ensures c.Some? ==> r < c.value <= |s|
  {
    var d := DigitRun(s, r);
    if 1 <= d <= 3 && GroupAt(s, r + d) then Some(r + d + 4 * GroupRun(s, r + d))
    else if d >= 4 then Some(r + d)
    else None
  }

  /** Where the optional `(?:\.\d+)?` ends when it is tried at `c`. */
  function FracEnd(s: string, c: nat): (f: nat)
    requires c <= |s|
    ensures c <= f <= |s|
  {
    if c + 1 < |s| && s[c] == '.' && IsDigit(s[c + 1]) then c + 1 + DigitRun(s, c + 1) else c
  }

  /** Where the optional `\(?` ends at `p`: it is taken when present. */
  function OpenEnd(s: string, p: nat): (o: nat)
    requires p <= |s|
    ensures p <= o <= |s|
  {
    if p < |s| && s[p] == '(' then p + 1 else p
  }

  /** Where the optional `-?` after it ends. */
  function SignEnd(s: string, p: nat): (r: nat)
    requires p <= |s|
    ensures p <= r <= |s|
  {
    var o := OpenEnd(s, p);
    if o < |s| && s[o] == '-' then o + 1 else o
  }

  /** Where the optional `\)?` ends at `f`. */
  function CloseEnd(s: string, f: nat): (e: nat)
    requires f <= |s|
    ensures f <= e <= |s|
  {
    if f < |s| && s[f] == ')' then f + 1 else f
  }

  /** The end of the match of the whole pattern at `p`, if there is one. The
      optional `(` and `-` are taken when present (leaving them out cannot
      help, since the digits must follow), and so are the optional fraction
      and `)` (nothing after them can fail). */
  function MatchAt(s: string, p: nat): (m: Option<nat>)
    requires p <= |s|
    ensures m.Some? ==> p < m.value <= |s|
  {
    match IntEnd(s, SignEnd(s, p))
    case None => None
    case Some(c) => Some(CloseEnd(s, FracEnd(s, c)))
  }

  /** `findall` from position `p`: at each position try the pattern; after a
      match go on at its end, otherwise at the next position. */
  function ScanFrom(s: string, p: nat): (spans: seq<Span>)
    requires p <= |s|
    ensures forall k :: 0 <= k < |spans| ==> p <= spans[k].start < spans[k].end <= |s|
    ensures forall k :: 0 <= k < |spans| - 1 ==> spans[k].end <= spans[k + 1].start
    decreases |s| - p
  {
    if p == |s| then []
    else match MatchAt(s, p)
      case Some(e) => [Span(p, e)] + ScanFrom(s, e)
      case None => ScanFrom(s, p + 1)
  }

  /** Each span is a match of the pattern at its start. */
  ghost predicate AllMatch(s: string, spans: seq<Span>)
    decreases |spans|
  {
    spans == [] ||
    (spans[0].start <= |s| && MatchAt(s, spans[0].start) == Some(spans[0].end) && AllMatch(s, spans[1..]))
  }

  lemma {:induction false} AllMatchAt(s: string, spans: seq<Span>, k: nat)
    requires AllMatch(s, spans) && k < |spans|
    ensures spans[k].start <= |s| && MatchAt(s, spans[k].start) == Some(spans[k].end)
    decreases k
  {
    if k > 0 {
      AllMatchAt(s, spans[1..], k - 1);
    }
  }

  /** Every span `findall` lists is a match of the pattern at its start. */
  lemma {:induction false} ScanMatches(s: string, p: nat)
    requires p <= |s|
    ensures AllMatch(s, ScanFrom(s, p))
    decreases |s| - p
  {
    if p < |s| {
      ScanMatchesFrom(s, p, ScanFrom(s, p));
    }
  }

  lemma {:induction false} ScanMatchesFrom(s: string, p: nat, spans: seq<Span>)
    requires p < |s| && spans == ScanFrom(s, p)
    ensures AllMatch(s, spans)
    decreases |s| - p, 0
  {
    ScanStep(s, p);
    if MatchAt(s, p).Some? {
      var e := MatchAt(s, p).value;
      ScanMatches(s, e);
      assert spans[1..] == ScanFrom(s, e);
    } else {
      ScanMatches(s, p + 1);
    }
  }

  /** `BIG_NUM_RE.findall(line)`, as spans: each a match of the pattern at its
      start, left to right without overlap. */
  function Tokens(line: string): (spans: seq<Span>)
    ensures forall k :: 0 <= k < |spans| ==> spans[k].start < spans[k].end <= |line|
    ensures forall k :: 0 <= k < |spans| - 1 ==> spans[k].end <= spans[k + 1].start
    ensures AllMatch(line, spans)
  {
    ScanMatches(line, 0);
    ScanFrom(line, 0)
  }

  /** The matched text of each span (what `findall` returns). */
  function Texts(line: string, spans: seq<Span>): (ts: seq<string>)
    requires forall k :: 0 <= k < |spans| ==> spans[k].start <= spans[k].end <= |line|
    ensures |ts| == |spans|
    ensures forall k :: 0 <= k < |spans| ==> ts[k] == line[spans[k].start..spans[k].end]
  {
    if spans == [] then [] else [line[spans[0].start..spans[0].end]] + Texts(line, spans[1..])
  }

  /** `BIG_NUM_RE.search(s, p)`: the first match at or after `p`. */
  function SearchFrom(s: string, p: nat): (r: Option<Span>)
    requires p <= |s|
    ensures r.Some? ==> p <= r.value.start < r.value.end <= |s|
    decreases |s| - p
  {
    if p == |s| then None
    else match MatchAt(s, p)
      case Some(e) => Some(Span(p, e))
      case None => SearchFrom(s, p + 1)
  }

  /** No match of the pattern starts in `[i, j)`. */
  ghost predicate NoMatchIn(s: string, i: nat, j: nat)
    requires j <= |s|
  {
    forall q :: i <= q < j ==> MatchAt(s, q).None?
  }

  /** `search` finds a match of the pattern with no match starting between
      `p` and it, or nothing when no position from `p` on starts one. */
  lemma {:induction false} SearchFromSpec(s: string, p: nat)
    requires p <= |s|
    ensures SearchFrom(s, p).Some? ==>
      MatchAt(s, SearchFrom(s, p).value.start) == Some(SearchFrom(s, p).value.end) &&
      NoMatchIn(s, p, SearchFrom(s, p).value.start)
    ensures SearchFrom(s, p).None? ==> NoMatchIn(s, p, |s|)
    decreases |s| - p
  {
    if p < |s| {
      var m := MatchAt(s, p);
      if m.Some? {
        assert SearchFrom(s, p) == Some(Span(p, m.value));
      } else {
        SearchFromSpec(s, p + 1);
        var r := SearchFrom(s, p + 1);
        assert SearchFrom(s, p) == r;
        NoMatchExtend(s, p, if r.Some? then r.value.start else |s|);
      }
    }
  }

  lemma NoMatchExtend(s: string, p: nat, j: nat)
    requires p < j <= |s| && MatchAt(s, p).None? && NoMatchIn(s, p + 1, j)
    ensures NoMatchIn(s, p, j)
  {
    forall q | p <= q < j ensures MatchAt(s, q).None? {
      if q != p {
        assert p + 1 <= q < j;
      }
    }
  }

  /** `search` finds the first span that `findall` lists, and nothing when the
      list is empty (line 33 relies on this). */
  lemma {:induction false} SearchIsFirstToken(s: string, p: nat)
    requires p <= |s|
    ensures ScanFrom(s, p) == [] ==> SearchFrom(s, p).None?
    ensures ScanFrom(s, p) != [] ==> SearchFrom(s, p) == Some(ScanFrom(s, p)[0])
    decreases |s| - p
  {
    if p < |s| {
      SearchStep(s, p, ScanFrom(s, p));
    }
  }

  lemma {:induction false} SearchStep(s: string, p: nat, spans: seq<Span>)
    requires p < |s| && spans == ScanFrom(s, p)
    ensures spans == [] ==> SearchFrom(s, p).None?
    ensures spans != [] ==> SearchFrom(s, p) == Some(spans[0])
    decreases |s| - p, 0
  {
    ScanStep(s, p);
    if MatchAt(s, p).None? {
      SearchIsFirstToken(s, p + 1);
    }
  }

  // The language of the pattern, part by part, on positions of the line.

  /** `s[i..j]` is a nonempty run of digits. */
  ghost predicate Digits(s: string, i: nat, j: nat) {
    i < j <= |s| && forall k :: i <= k < j ==> IsDigit(s[k])
  }

  /** `s[i..j]` is matched by `(?:,\d{3})+`. */
  ghost predicate Groups(s: string, i: nat, j: nat)
    decreases j - i
  {
    GroupAt(s, i) && (j == i + 4 || (j > i + 4 && Groups(s, i + 4, j)))
  }

  /** `s[i..j]` is matched by `\d{1,3}(?:,\d{3})+|\d{4,}`. */
  ghost predicate IntPart(s: string, i: nat, j: nat) {
    (exists k: nat :: i < k <= i + 3 && Digits(s, i, k) && Groups(s, k, j)) ||
    (i + 4 <= j && Digits(s, i, j))
  }

  /** `s[i..j]` is matched by `(?:\.\d+)?`. */
  ghost predicate Fraction(s: string, i: nat, j: nat) {
    j == i || (i + 2 <= j && Digits(s, i + 1, j) && s[i] == '.')
  }

  /** `s[i..j]` is matched by `ch?`. */
  ghost predicate Optional(s: string, i: nat, j: nat, ch: char) {
    j == i || (j == i + 1 && i < |s| && s[i] == ch)
  }

  /** Where the parts `\(?`, `-?`, the digits and the fraction of a token end;
      `\)?` ends where the token does. */
  datatype Cuts = Cuts(afterOpen: nat, afterSign: nat, afterInt: nat, afterFrac: nat)

  ghost predicate Fits(s: string, p: nat, e: nat, k: Cuts) {
    e <= |s| &&
    Optional(s, p, k.afterOpen, '(') && Optional(s, k.afterOpen, k.afterSign, '-') &&
    IntPart(s, k.afterSign, k.afterInt) && Fraction(s, k.afterInt, k.afterFrac) &&
    Optional(s, k.afterFrac, e, ')')
  }

  /** `s[p..e]` is matched by the whole pattern. */
  ghost predicate IsToken(s: string, p: nat, e: nat) {
    exists k :: Fits(s, p, e, k)
  }

  lemma {:induction false} DigitRunCovers(s: string, i: nat, j: nat)
    requires Digits(s, i, j)
    ensures DigitRun(s, i) >= j - i
    decreases j - i
  {
    if i + 1 < j {
      DigitRunCovers(s, i + 1, j);
    }
  }

  lemma {:induction false} GroupRunIsGroups(s: string, i: nat)
    requires i <= |s| && GroupRun(s, i) >= 1
    ensures Groups(s, i, i + 4 * GroupRun(s, i))
    decreases |s| - i
  {
    if GroupRun(s, i + 4) >= 1 {
      GroupRunIsGroups(s, i + 4);
    }
  }

  /** A run of groups ends within the greedy run, and where it ends early
      another group follows. */
  lemma {:induction false} GroupsWithinRun(s: string, i: nat, j: nat)
    requires i <= |s| && Groups(s, i, j)
    ensures j <= i + 4 * GroupRun(s, i)
    ensures j < i + 4 * GroupRun(s, i) ==> GroupAt(s, j)
    decreases j - i
  {
    if j > i + 4 {
      GroupsWithinRun(s, i + 4, j);
    }
  }

  lemma IntEndSound(s: string, r: nat)
    requires r <= |s| && IntEnd(s, r).Some?
    ensures IntPart(s, r, IntEnd(s, r).value)
  {
    var d := DigitRun(s, r);
    if 1 <= d <= 3 && GroupAt(s, r + d) {
      GroupRunIsGroups(s, r + d);
      assert Digits(s, r, r + d) && Groups(s, r + d, IntEnd(s, r).value);
    } else {
      assert Digits(s, r, IntEnd(s, r).value);
    }
  }

  /** The cuts of the scanner's own match at `p`. */
  function CutsAt(s: string, p: nat): Cuts
    requires p <= |s| && MatchAt(s, p).Some?
  {
    var c := IntEnd(s, SignEnd(s, p)).value;
    Cuts(OpenEnd(s, p), SignEnd(s, p), c, FracEnd(s, c))
  }

  /** Every match of the scanner is a token, cut where the scanner cuts it. */
  lemma MatchSound(s: string, p: nat)
    requires p <= |s| && MatchAt(s, p).Some?
    ensures Fits(s, p, MatchAt(s, p).value, CutsAt(s, p))
    ensures IsToken(s, p, MatchAt(s, p).value)
  {
    var k := CutsAt(s, p);
    IntEndSound(s, k.afterSign);
    assert IntPart(s, k.afterSign, k.afterInt);
    assert Fraction(s, k.afterInt, k.afterFrac);
    assert Fits(s, p, MatchAt(s, p).value, k);
  }

  /** Where a token's digits could end, against where the scanner's end: no
      further, and where earlier, a digit or a comma comes next. */
  lemma IntLongest(s: string, r: nat, c: nat)
    requires r <= |s| && IntPart(s, r, c)
    ensures IntEnd(s, r).Some? && c <= IntEnd(s, r).value
    ensures c < IntEnd(s, r).value ==> c < |s| && (IsDigit(s[c]) || s[c] == ',')
  {
    var d := DigitRun(s, r);
    if k: nat :| r < k <= r + 3 && Digits(s, r, k) && Groups(s, k, c) {
      DigitRunCovers(s, r, k);
      assert d == k - r;
      GroupsWithinRun(s, k, c);
    } else {
      DigitRunCovers(s, r, c);
    }
  }

  /** The digits of a token begin with a digit. */
  lemma IntPartLeadDigit(s: string, i: nat, j: nat)
    requires IntPart(s, i, j)
    ensures i < |s| && IsDigit(s[i])
  {
    if k: nat :| i < k <= i + 3 && Digits(s, i, k) && Groups(s, k, j) {
      assert IsDigit(s[i]);
    } else {
      assert IsDigit(s[i]);
    }
  }

  /** A token takes its `(` and `-` where the scanner does. */
  lemma FitsSign(s: string, p: nat, e: nat, k: Cuts)
    requires p <= |s| && Fits(s, p, e, k)
    ensures k.afterOpen == OpenEnd(s, p) && k.afterSign == SignEnd(s, p)
  {
    IntPartLeadDigit(s, k.afterSign, k.afterInt);
  }

  /** The scanner finds a match wherever a token starts, and it is the longest
      one: for this pattern the backtracking order and "longest" agree. */
  lemma MatchLongest(s: string, p: nat, e: nat, k: Cuts)
    requires p <= |s| && Fits(s, p, e, k)
    ensures MatchAt(s, p).Some? && e <= MatchAt(s, p).value
  {
    FitsSign(s, p, e, k);
    IntLongest(s, k.afterSign, k.afterInt);
    EndLongest(s, k.afterInt, k.afterFrac, e, IntEnd(s, k.afterSign).value);
  }

  /** After digits that end at `a` where the scanner's end at `c`, a
      fraction and a `)` of a token end no later than those the scanner
      takes. */
  lemma EndLongest(s: string, a: nat, j: nat, e: nat, c: nat)
    requires a <= c <= |s| && (a < c ==> a < |s| && (IsDigit(s[a]) || s[a] == ','))
    requires e <= |s| && Fraction(s, a, j) && Optional(s, j, e, ')')
    ensures e <= CloseEnd(s, FracEnd(s, c))
  {
    var f := FracEnd(s, c);
    if a < c {
      assert j == a && e == a;
    } else if j > c {
      DigitRunCovers(s, c + 1, j);
      assert j <= f;
      if j < f {
        assert IsDigit(s[j]);
      }
    }
  }

  /** No token starts in `lo..hi`. */
  ghost predicate NoTokenIn(s: string, lo: nat, hi: nat) {
    forall q: nat, e: nat :: lo <= q < hi && q <= e <= |s| ==> !IsToken(s, q, e)
  }

  /** `spans` is what a leftmost-longest, non-overlapping search for tokens from
      `p` finds: nothing is skipped before each span, each span is the longest
      token at its start, and the search goes on after it. */
  ghost predicate IsFindAll(s: string, p: nat, spans: seq<Span>)
    decreases |spans|
  {
    if spans == [] then NoTokenIn(s, p, |s| + 1)
    else
      p <= spans[0].start && NoTokenIn(s, p, spans[0].start) &&
      IsToken(s, spans[0].start, spans[0].end) &&
      (forall e: nat :: spans[0].end < e <= |s| ==> !IsToken(s, spans[0].start, e)) &&
      IsFindAll(s, spans[0].end, spans[1..])
  }

  lemma NoTokenWhereNoMatch(s: string, q: nat)
    requires q <= |s| && MatchAt(s, q).None?
    ensures forall e: nat :: q <= e <= |s| ==> !IsToken(s, q, e)
  {
    forall e: nat | q <= e <= |s| && IsToken(s, q, e) ensures false {
      var k :| Fits(s, q, e, k);
      MatchLongest(s, q, e, k);
    }
  }

  lemma LongestAtMatch(s: string, q: nat)
    requires q <= |s| && MatchAt(s, q).Some?
    ensures forall e: nat :: MatchAt(s, q).value < e <= |s| ==> !IsToken(s, q, e)
  {
    forall e: nat | MatchAt(s, q).value < e <= |s| && IsToken(s, q, e) ensures false {
      var k :| Fits(s, q, e, k);
      MatchLongest(s, q, e, k);
    }
  }

  lemma FindAllSkip(s: string, p: nat, spans: seq<Span>)
    requires p < |s| && MatchAt(s, p).None? && IsFindAll(s, p + 1, spans)
    ensures IsFindAll(s, p, spans)
  {
    NoTokenWhereNoMatch(s, p);
  }

  lemma FindAllTake(s: string, p: nat, e: nat, spans: seq<Span>)
    requires p < |s| && MatchAt(s, p) == Some(e) && IsFindAll(s, e, spans)
    ensures IsFindAll(s, p, [Span(p, e)] + spans)
  {
    MatchSound(s, p);
    LongestAtMatch(s, p);
    assert ([Span(p, e)] + spans)[1..] == spans;
  }

  /** One step of `ScanFrom`. */
  lemma ScanStep(s: string, p: nat)
    requires p < |s|
    ensures MatchAt(s, p).None? ==> ScanFrom(s, p) == ScanFrom(s, p + 1)
    ensures MatchAt(s, p).Some? ==>
      ScanFrom(s, p) == [Span(p, MatchAt(s, p).value)] + ScanFrom(s, MatchAt(s, p).value)
  {
  }

  lemma {:induction false} ScanIsFindAll(s: string, p: nat)
    requires p <= |s|
    ensures IsFindAll(s, p, ScanFrom(s, p))
    decreases |s| - p
  {
    if p == |s| {
      NoTokenWhereNoMatch(s, p);
    } else {
      FindAllFrom(s, p, ScanFrom(s, p));
    }
  }

  lemma {:induction false} FindAllFrom(s: string, p: nat, spans: seq<Span>)
    requires p < |s| && spans == ScanFrom(s, p)
    ensures IsFindAll(s, p, spans)
    decreases |s| - p, 0
  {
    ScanStep(s, p);
    if MatchAt(s, p).Some? {
      var e := MatchAt(s, p).value;
      ScanIsFindAll(s, e);
      FindAllTake(s, p, e, ScanFrom(s, e));
    } else {
      ScanIsFindAll(s, p + 1);
      FindAllSkip(s, p, ScanFrom(s, p + 1));
    }
  }
}
