/** Character classes and the Python `str` operations the conversion relies on. */
module Text {

  /** The characters for which Python's `str.isspace()` holds. Both `\s` in a
      `str` pattern and `str.strip()` without an argument use exactly this class. */
  predicate IsSpace(c: char) {
    ('\t' <= c <= '\r') || ('\U{1C}' <= c <= ' ') || c == '\U{85}' || c == '\U{A0}' ||
    c == '\U{1680}' || ('\U{2000}' <= c <= '\U{200A}') || c == '\U{2028}' || c == '\U{2029}' ||
    c == '\U{202F}' || c == '\U{205F}' || c == '\U{3000}'
  }

  /** An ASCII decimal digit (see README: other Unicode digits are not modelled). */
  predicate IsDigit(c: char) { '0' <= c <= '9' }

  /** Length of the run of digits of `s` that starts at position `i`. */
  function DigitRun(s: string, i: nat): (n: nat)
    requires i <= |s|
    ensures i + n <= |s|
    ensures forall k :: i <= k < i + n ==> IsDigit(s[k])
    ensures i + n < |s| ==> !IsDigit(s[i + n])
    decreases |s| - i
  {
    if i < |s| && IsDigit(s[i]) then 1 + DigitRun(s, i + 1) else 0
  }

  /** A run of `n` digits at `i` followed by a non-digit (or the end) is the
      whole digit run there. */
  lemma DigitRunExact(s: string, i: nat, n: nat)
    requires i + n <= |s|
    requires forall k :: i <= k < i + n ==> IsDigit(s[k])
    requires i + n < |s| ==> !IsDigit(s[i + n])
    ensures DigitRun(s, i) == n
  {
  }

  predicate IsUpper(c: char) { 'A' <= c <= 'Z' }

  predicate IsLower(c: char) { 'a' <= c <= 'z' }

  /** `ch.lower()` on ASCII; every other character is left alone. */
  function LowerChar(c: char): (d: char)
    ensures IsUpper(c) ==> IsLower(d) && d as int == c as int + 32
    ensures !IsUpper(c) ==> d == c
  {
    if IsUpper(c) then (c as int + 32) as char else c
  }

  /** `s.lower()`, character by character. */
  function Lower(s: string): (r: string)
    ensures |r| == |s|
    ensures forall i :: 0 <= i < |s| ==> r[i] == LowerChar(s[i])
  {
    seq(|s|, i requires 0 <= i < |s| => LowerChar(s[i]))
  }

  /** Concatenation regroups freely. */
  lemma AppendAssoc<T>(x: seq<T>, y: seq<T>, z: seq<T>)
    ensures x + (y + z) == x + y + z
  {
  }

  lemma LowerAppend(a: string, b: string)
    ensures Lower(a + b) == Lower(a) + Lower(b)
  {
    var l, r := Lower(a + b), Lower(a) + Lower(b);
    forall i | 0 <= i < |l| ensures l[i] == r[i] {
      if i < |a| {
        assert (a + b)[i] == a[i];
      } else {
        assert (a + b)[i] == b[i - |a|];
      }
    }
  }

  /** `s.replace(a, b)` for a single character `a` and a single character `b`. */
  function ReplaceChar(s: string, a: char, b: char): string {
    seq(|s|, i requires 0 <= i < |s| => if s[i] == a then b else s[i])
  }

  /** `s.lstrip(chars)`: drops the longest prefix made only of characters satisfying `drop`. */
  function TrimLeft(s: string, drop: char -> bool): (r: string)
    ensures |r| <= |s| && r == s[|s| - |r|..]
    ensures forall i :: 0 <= i < |s| - |r| ==> drop(s[i])
    ensures r != [] ==> !drop(r[0])
  {
    if s != [] && drop(s[0]) then TrimLeft(s[1..], drop) else s
  }

  /** `s.rstrip(chars)`: drops the longest suffix made only of characters satisfying `drop`. */
  function TrimRight(s: string, drop: char -> bool): (r: string)
    ensures |r| <= |s| && r == s[..|r|]
    ensures forall i :: |r| <= i < |s| ==> drop(s[i])
    ensures r != [] ==> !drop(r[|r| - 1])
  {
    if s != [] && drop(s[|s| - 1]) then TrimRight(s[..|s| - 1], drop) else s
  }

  /** `s.strip(chars)`, where `drop` tells which characters are in `chars`;
      with `drop == IsSpace` it is `s.strip()`. */
  function Trim(s: string, drop: char -> bool): string {
    TrimRight(TrimLeft(s, drop), drop)
  }

  /** `Trim` keeps one contiguous piece `s[i..j]` of `s`: everything cut off in
      front of it and behind it satisfies `drop`, and the piece neither starts
      nor ends with such a character. */
  lemma TrimCuts(s: string, drop: char -> bool) returns (i: nat, j: nat)
    ensures i <= j <= |s| && Trim(s, drop) == s[i..j]
    ensures forall k :: 0 <= k < i ==> drop(s[k])
    ensures forall k :: j <= k < |s| ==> drop(s[k])
    ensures i < j ==> !drop(s[i]) && !drop(s[j - 1])
  {
    var t := TrimLeft(s, drop);
    i := |s| - |t|;
    assert t == s[i..];
    var r := TrimRight(t, drop);
    assert r == t[..|r|];
    j := i + |r|;
    assert r == s[i..j];
    forall k | j <= k < |s| ensures drop(s[k]) {
      assert s[k] == t[k - i];
    }
  }

  /** `s.strip(a).strip(b)` (with `drop1` and `drop2` telling which characters
      are in `a` and in `b`) keeps one contiguous piece `s[i..j]`: everything cut
      off satisfies `drop1` or `drop2`, and the piece neither starts nor ends
      with a `drop2` character. */
  lemma TrimTwiceCuts(s: string, drop1: char -> bool, drop2: char -> bool) returns (i: nat, j: nat)
    ensures i <= j <= |s| && Trim(Trim(s, drop1), drop2) == s[i..j]
    ensures forall k :: 0 <= k < i ==> drop1(s[k]) || drop2(s[k])
    ensures forall k :: j <= k < |s| ==> drop1(s[k]) || drop2(s[k])
    ensures i < j ==> !drop2(s[i]) && !drop2(s[j - 1])
  {
    var i1, j1 := TrimCuts(s, drop1);
    var i2, j2 := TrimCuts(Trim(s, drop1), drop2);
    i, j := ComposeCuts(s, drop1, drop2, i1, j1, Trim(s, drop1), i2, j2);
  }

  /** The cuts of a piece `inner == s[i1..j1]` of `s` as cuts of `s`. */
  lemma ComposeCuts(s: string, drop1: char -> bool, drop2: char -> bool,
                    i1: nat, j1: nat, inner: string, i2: nat, j2: nat) returns (i: nat, j: nat)
    requires i1 <= j1 <= |s| && inner == s[i1..j1]
    requires forall k :: 0 <= k < i1 ==> drop1(s[k])
    requires forall k :: j1 <= k < |s| ==> drop1(s[k])
    requires i2 <= j2 <= |inner|
    requires forall k :: 0 <= k < i2 ==> drop2(inner[k])
    requires forall k :: j2 <= k < |inner| ==> drop2(inner[k])
    requires i2 < j2 ==> !drop2(inner[i2]) && !drop2(inner[j2 - 1])
    ensures i <= j <= |s| && inner[i2..j2] == s[i..j]
    ensures forall k :: 0 <= k < i ==> drop1(s[k]) || drop2(s[k])
    ensures forall k :: j <= k < |s| ==> drop1(s[k]) || drop2(s[k])
    ensures i < j ==> !drop2(s[i]) && !drop2(s[j - 1])
  {
    SliceOfSlice(s, i1, j1, inner, i2, j2);
    i, j := i1 + i2, i1 + j2;
  }

  /** A piece of a piece of `s` is a piece of `s`, character by character. */
  lemma SliceOfSlice(s: string, i1: nat, j1: nat, inner: string, i2: nat, j2: nat)
    requires i1 <= j1 <= |s| && inner == s[i1..j1] && i2 <= j2 <= |inner|
    ensures inner[i2..j2] == s[i1 + i2..i1 + j2]
    ensures forall k :: 0 <= k < |inner| ==> inner[k] == s[i1 + k]
  {
    forall k | 0 <= k < j2 - i2 ensures inner[i2..j2][k] == s[i1 + i2..i1 + j2][k] {
      assert inner[i2..j2][k] == inner[i2 + k];
    }
  }

  /** A string that neither starts nor ends with a `drop` character is left
      alone by the strip. */
  lemma TrimNoop(s: string, drop: char -> bool)
    requires s != [] ==> !drop(s[0]) && !drop(s[|s| - 1])
    ensures Trim(s, drop) == s
  {
  }

  /** One stripped character in front and none behind. */
  lemma TrimOneFront(s: string, drop: char -> bool)
    requires |s| >= 2 && drop(s[0]) && !drop(s[1]) && !drop(s[|s| - 1])
    ensures Trim(s, drop) == s[1..]
  {
    var t := s[1..];
    assert t[0] == s[1];
    assert TrimLeft(t, drop) == t;
    assert TrimLeft(s, drop) == t;
    assert t[|t| - 1] == s[|s| - 1];
    assert TrimRight(t, drop) == t;
  }

  /** When every `drop2` character of `s` is also a `drop1` character, the
      second strip of `s.strip(a).strip(b)` cuts nothing. */
  lemma TrimTwiceFirstOnly(s: string, drop1: char -> bool, drop2: char -> bool)
    requires forall k :: 0 <= k < |s| && drop2(s[k]) ==> drop1(s[k])
    ensures Trim(Trim(s, drop1), drop2) == Trim(s, drop1)
  {
    var i, j := TrimCuts(s, drop1);
    if i < j {
      assert Trim(s, drop1)[0] == s[i] && Trim(s, drop1)[j - i - 1] == s[j - 1];
    }
    TrimNoop(Trim(s, drop1), drop2);
  }

  /** Stripping only ever removes characters. */
  lemma TrimSubset(s: string, drop: char -> bool)
    ensures forall c :: c in Trim(s, drop) ==> c in s
  {
    var i, j := TrimCuts(s, drop);
    forall c | c in Trim(s, drop) ensures c in s {
      var k :| 0 <= k < j - i && s[i..j][k] == c;
      assert s[i + k] == c;
    }
  }

  /** `s` without the characters satisfying `drop`, the others kept in order. */
  function Remove(s: string, drop: char -> bool): string {
    if s == [] then [] else (if drop(s[0]) then [] else [s[0]]) + Remove(s[1..], drop)
  }

  lemma {:induction false} RemoveAppend(a: string, b: string, drop: char -> bool)
    ensures Remove(a + b, drop) == Remove(a, drop) + Remove(b, drop)
    decreases |a|
  {
    if a == [] {
      assert a + b == b;
    } else {
      assert (a + b)[0] == a[0];
      assert (a + b)[1..] == a[1..] + b;
      RemoveAppend(a[1..], b, drop);
    }
  }

  lemma {:induction false} RemoveDropped(s: string, drop: char -> bool)
    requires forall i :: 0 <= i < |s| ==> drop(s[i])
    ensures Remove(s, drop) == []
    decreases |s|
  {
    if s != [] {
      RemoveDropped(s[1..], drop);
    }
  }

  lemma {:induction false} RemoveKept(s: string, drop: char -> bool)
    requires forall i :: 0 <= i < |s| ==> !drop(s[i])
    ensures Remove(s, drop) == s
    decreases |s|
  {
    if s != [] {
      RemoveKept(s[1..], drop);
    }
  }

  /** What `Remove` keeps comes from `s` and does not satisfy `drop`. */
  lemma {:induction false} RemoveSubset(s: string, drop: char -> bool)
    ensures forall c :: c in Remove(s, drop) ==> c in s && !drop(c)
    decreases |s|
  {
    if s != [] {
      RemoveSubset(s[1..], drop);
    }
  }

  /** Removing twice is removing once. */
  lemma {:induction false} RemoveIdempotent(s: string, drop: char -> bool)
    ensures Remove(Remove(s, drop), drop) == Remove(s, drop)
    decreases |s|
  {
    if s != [] {
      RemoveIdempotent(s[1..], drop);
      var head := if drop(s[0]) then [] else [s[0]];
      RemoveAppend(head, Remove(s[1..], drop), drop);
      RemoveKept(head, drop);
    }
  }

  lemma {:induction false} RemoveDroppedPrefix(s: string, i: nat, drop: char -> bool)
    requires i <= |s|
    requires forall k :: 0 <= k < i ==> drop(s[k])
    ensures Remove(s, drop) == Remove(s[i..], drop)
    decreases i
  {
    if i > 0 {
      assert s[1..][i - 1..] == s[i..];
      RemoveDroppedPrefix(s[1..], i - 1, drop);
    }
  }

  lemma RemoveDroppedSuffix(s: string, j: nat, drop: char -> bool)
    requires j <= |s|
    requires forall k :: j <= k < |s| ==> drop(s[k])
    ensures Remove(s, drop) == Remove(s[..j], drop)
  {
    var front, back := s[..j], s[j..];
    assert s == front + back;
    RemoveAppend(front, back, drop);
    forall k | 0 <= k < |back| ensures drop(back[k]) {
      assert back[k] == s[j + k];
    }
    RemoveDropped(back, drop);
    assert Remove(front, drop) + [] == Remove(front, drop);
  }

  /** Trimming only ever cuts characters satisfying `drop`. */
  lemma TrimKeepsRest(s: string, drop: char -> bool)
    ensures Remove(Trim(s, drop), drop) == Remove(s, drop)
  {
    TrimWithin(s, drop, drop);
  }

  /** Removing the characters of a narrower class first changes nothing. */
  lemma {:induction false} RemoveWithin(s: string, drop1: char -> bool, drop2: char -> bool)
    requires forall c :: drop1(c) ==> drop2(c)
    ensures Remove(Remove(s, drop1), drop2) == Remove(s, drop2)
    decreases |s|
  {
    if s != [] {
      RemoveWithin(s[1..], drop1, drop2);
      var head := if drop1(s[0]) then [] else [s[0]];
      RemoveAppend(head, Remove(s[1..], drop1), drop2);
    }
  }

  /** Stripping the characters of a narrower class changes nothing once the
      wider class is removed. */
  lemma TrimWithin(s: string, drop1: char -> bool, drop2: char -> bool)
    requires forall c :: drop1(c) ==> drop2(c)
    ensures Remove(Trim(s, drop1), drop2) == Remove(s, drop2)
  {
    var i, j := TrimCuts(s, drop1);
    var rest := s[i..];
    assert Remove(s, drop2) == Remove(rest, drop2) by {
      forall k | 0 <= k < i ensures drop2(s[k]) {
        assert drop1(s[k]);
      }
      RemoveDroppedPrefix(s, i, drop2);
    }
    assert Remove(rest, drop2) == Remove(rest[..j - i], drop2) by {
      forall k | j - i <= k < |rest| ensures drop2(rest[k]) {
        assert rest[k] == s[i + k] && drop1(s[i + k]);
      }
      RemoveDroppedSuffix(rest, j - i, drop2);
    }
    assert rest[..j - i] == s[i..j];
  }

  predicate StartsWith(s: string, prefix: string) {
    |prefix| <= |s| && s[..|prefix|] == prefix
  }

  /** Python's `needle in s` on strings. */
  function Contains(s: string, needle: string): bool
    decreases |s|
  {
    StartsWith(s, needle) || (s != [] && Contains(s[1..], needle))
  }

  /** `needle` occurs in `s` starting at offset `i`. */
  ghost predicate OccursAt(s: string, needle: string, i: int) {
    0 <= i <= |s| - |needle| && s[i..i + |needle|] == needle
  }

  /** `Contains` is the substring test: `needle` occurs at some offset of `s`. */
  lemma {:induction false} ContainsIff(s: string, needle: string)
    ensures Contains(s, needle) <==> exists i :: OccursAt(s, needle, i)
    decreases |s|
  {
    if StartsWith(s, needle) {
      assert OccursAt(s, needle, 0);
    }
    if s != [] {
      ContainsIff(s[1..], needle);
      if Contains(s[1..], needle) {
        var i :| OccursAt(s[1..], needle, i);
        assert s[1..][i..i + |needle|] == s[i + 1..i + 1 + |needle|];
        assert OccursAt(s, needle, i + 1);
      }
      if i :| OccursAt(s, needle, i) {
        if i > 0 {
          assert s[1..][i - 1..i - 1 + |needle|] == s[i..i + |needle|];
          assert OccursAt(s[1..], needle, i - 1);
        } else {
          assert StartsWith(s, needle);
        }
      }
    } else {
      if i :| OccursAt(s, needle, i) {
        assert StartsWith(s, needle);
      }
    }
  }
}
