/** Strings as the invoice scanner sees them: the character classes of its
    patterns, Python's `upper`, `strip`, `in` and `split`, an occurrence
    count (overlapping occurrences included), and one
    leftmost-match scanner shared by every fixed pattern of the scanner. */
module Text {

  datatype Option<T> = None | Some(value: T)

  // ---------------------------------------------------------------------------
  // Character classes

  /** Python's `str.isspace()`; `strip()` with no argument and the `\s` class of
      a str pattern both use this set. */
  predicate IsSpace(c: char) {
    c == ' ' || '\t' <= c <= '\r' || '\U{1C}' <= c <= '\U{1F}'
    || c == '\U{85}' || c == '\U{A0}' || c == '\U{1680}'
    || '\U{2000}' <= c <= '\U{200A}' || c == '\U{2028}' || c == '\U{2029}'
    || c == '\U{202F}' || c == '\U{205F}' || c == '\U{3000}'
  }

  predicate IsDigit(c: char) { '0' <= c <= '9' }

  predicate IsUpperLetter(c: char) { 'A' <= c <= 'Z' }

  predicate IsLowerLetter(c: char) { 'a' <= c <= 'z' }

  /** The characters `\b` tells apart from the rest: letters, digits, underscore. */
  predicate IsWordChar(c: char) {
    IsUpperLetter(c) || IsLowerLetter(c) || IsDigit(c) || c == '_'
  }

  /** `upper()` on one character: a lower-case ASCII letter becomes its
      capital, 32 code points below it; every other character stays. */
  function UpperChar(c: char): (u: char)
    ensures !IsLowerLetter(u)
    ensures IsLowerLetter(c) ==> IsUpperLetter(u) && u as int == c as int - 32
    ensures !IsLowerLetter(c) ==> u == c
  {
    if IsLowerLetter(c) then (c as int - 'a' as int + 'A' as int) as char else c
  }

  /** `upper()`: no lower-case letter is left, each one is replaced by its
      capital in place, and nothing else moves or changes. */
  function Upper(s: string): (r: string)
    ensures |r| == |s|
    ensures forall i :: 0 <= i < |r| ==> !IsLowerLetter(r[i])
    ensures forall i :: 0 <= i < |s| && IsLowerLetter(s[i]) ==> IsUpperLetter(r[i]) && r[i] as int == s[i] as int - 32
    ensures forall i :: 0 <= i < |s| && !IsLowerLetter(s[i]) ==> r[i] == s[i]
  {
    seq(|s|, i requires 0 <= i < |s| => UpperChar(s[i]))
  }

  // ---------------------------------------------------------------------------
  // Runs of one character class

  /** Where the run of `cls` characters that starts at `i` ends. */
  function RunEnd(s: string, i: nat, cls: char -> bool): (j: nat)
    requires i <= |s|
    ensures i <= j <= |s|
    ensures forall q :: i <= q < j ==> cls(s[q])
    ensures j == |s| || !cls(s[j])
    decreases |s| - i
  {
    if i == |s| || !cls(s[i]) then i else RunEnd(s, i + 1, cls)
  }

  /** Where the run of `cls` characters that ends at `j` starts. */
  function RunStart(s: string, j: nat, cls: char -> bool): (i: nat)
    requires j <= |s|
    ensures i <= j
    ensures forall q :: i <= q < j ==> cls(s[q])
    ensures i == 0 || !cls(s[i - 1])
  {
    if j == 0 || !cls(s[j - 1]) then j else RunStart(s, j - 1, cls)
  }

  // ---------------------------------------------------------------------------
  // Contiguous pieces and trimming

  ghost predicate IsInfix(r: string, s: string) {
    exists a, b :: 0 <= a <= b <= |s| && r == s[a..b]
  }

  lemma InfixOfSlice(s: string, a: nat, b: nat, c: nat, d: nat)
    requires a <= b <= |s| && c <= d <= b - a
    ensures s[a..b][c..d] == s[a + c..a + d]
  {
    assert forall i :: 0 <= i < d - c ==> s[a..b][c..d][i] == s[a + c..a + d][i];
  }

  lemma {:induction false} InfixTransitive(r: string, t: string, s: string)
    requires IsInfix(r, t) && IsInfix(t, s)
    ensures IsInfix(r, s)
  {
    var a, b :| 0 <= a <= b <= |t| && r == t[a..b];
    var c, d :| 0 <= c <= d <= |s| && t == s[c..d];
    InfixOfSlice(s, c, d, a, b);
    assert r == s[c + a..c + b];
  }

  /** A suffix cut into three consecutive slices. */
  lemma SliceThree(s: string, p: nat, k: nat, e: nat)
    requires p <= k <= e <= |s|
    ensures s[p..] == s[p..k] + s[k..e] + s[e..]
  {
    assert s[p..] == s[p..k] + s[k..];
    assert s[k..] == s[k..e] + s[e..];
  }

  lemma PrefixIsInfix(r: string, s: string)
    requires r <= s
    ensures IsInfix(r, s)
  {
    assert r == s[0..|r|];
  }

  /** `s[a..b]` is what is left of `s` once its leading and trailing
      whitespace is gone. */
  ghost predicate StrippedAt(s: string, a: int, b: int) {
    0 <= a <= b <= |s|
    && (forall q :: 0 <= q < a ==> IsSpace(s[q]))
    && (forall q :: b <= q < |s| ==> IsSpace(s[q]))
    && (a == b || (!IsSpace(s[a]) && !IsSpace(s[b - 1])))
  }

  /** Where the text left by `strip` starts. */
  function StripStart(s: string): (a: nat)
    ensures a <= |s|
  {
    RunEnd(s, 0, IsSpace)
  }

  /** Python's `str.strip()`. */
  function Strip(s: string): (r: string)
    ensures StripStart(s) + |r| <= |s|
    ensures StrippedAt(s, StripStart(s), StripStart(s) + |r|)
    ensures r == s[StripStart(s)..StripStart(s) + |r|]
  {
    var a := StripStart(s);
    var b := RunStart(s, |s|, IsSpace);
    if b <= a then [] else s[a..b]
  }

  /** The whitespace around a text determines what `strip` leaves of it. */
  lemma StrippedAtUnique(s: string, a: int, b: int, a': int, b': int)
    requires StrippedAt(s, a, b) && StrippedAt(s, a', b')
    ensures s[a..b] == s[a'..b']
  {
    if a == b || a' == b' {
      assert forall q :: 0 <= q < |s| ==> IsSpace(s[q]);
    }
  }

  lemma StripIsInfix(s: string)
    ensures IsInfix(Strip(s), s)
  {
    var a := StripStart(s);
    assert Strip(s) == s[a..a + |Strip(s)|];
  }

  lemma StrippedAtAppendSpace(x: string, c: char, a: int, b: int)
    requires IsSpace(c) && StrippedAt(x, a, b)
    ensures StrippedAt(x + [c], a, b) && (x + [c])[a..b] == x[a..b]
  {
    var y := x + [c];
    forall q | b <= q < |y| ensures IsSpace(y[q]) {
      if q < |x| { assert y[q] == x[q]; }
    }
  }

  /** Whitespace added at the end makes no difference once the text is stripped. */
  lemma StripAppendSpace(x: string, c: char)
    requires IsSpace(c)
    ensures Strip(x + [c]) == Strip(x)
  {
    var a := StripStart(x);
    var b := a + |Strip(x)|;
    StrippedAtAppendSpace(x, c, a, b);
    StripOfStrippedAt(x + [c], a, b);
  }

  /** Whatever the whitespace at the ends pins down is what `strip` leaves. */
  lemma StripOfStrippedAt(s: string, a: int, b: int)
    requires StrippedAt(s, a, b)
    ensures Strip(s) == s[a..b]
  {
    var a' := StripStart(s);
    StrippedAtUnique(s, a, b, a', a' + |Strip(s)|);
  }

  /** Stripping a text with no whitespace at either end changes nothing. */
  lemma StripStripped(s: string)
    requires s == [] || (!IsSpace(s[0]) && !IsSpace(s[|s| - 1]))
    ensures Strip(s) == s
  {
    assert StrippedAt(s, 0, |s|);
    var a' := StripStart(s);
    StrippedAtUnique(s, 0, |s|, a', a' + |Strip(s)|);
  }

  // ---------------------------------------------------------------------------
  // The leftmost match of a fixed pattern

  /** The first position at or after `from` where `at` holds; `at(s, k)` says
      that a pattern matches `s` at `k`, so this is where `re.search` finds it. */
  function Leftmost(s: string, at: (string, nat) -> bool, from: nat): (r: Option<nat>)
    requires from <= |s|
    ensures r.Some? ==> from <= r.value <= |s| && at(s, r.value)
    ensures r.Some? ==> forall q :: from <= q < r.value ==> !at(s, q)
    ensures r.None? ==> forall q :: from <= q <= |s| ==> !at(s, q)
    decreases |s| - from
  {
    if at(s, from) then Some(from)
    else if from == |s| then None
    else Leftmost(s, at, from + 1)
  }

  /** `re.split(pattern, s)[0]`: the text before the leftmost match, or all of
      `s` when the pattern matches nowhere. */
  function BeforeFirst(s: string, at: (string, nat) -> bool): (r: string)
    ensures r <= s
    ensures forall q :: 0 <= q < |r| ==> !at(s, q)
    ensures r == s || at(s, |r|)
  {
    match Leftmost(s, at, 0)
    case None => s
    case Some(k) => s[..k]
  }

  // ---------------------------------------------------------------------------
  // Substrings: `in`, `split(w)[0]`, `count`

  predicate OccursAt(s: string, w: string, k: int) {
    0 <= k && k + |w| <= |s| && s[k..k + |w|] == w
  }

  /** Python's `w in s`. */
  ghost predicate Occurs(s: string, w: string) {
    exists k :: OccursAt(s, w, k)
  }

  lemma OccursAtHead(s: string, w: string, k: int)
    requires OccursAt(s, w, k) && |w| > 0
    ensures s[k] == w[0]
  {
    assert s[k..k + |w|][0] == s[k];
  }

  lemma OccursAtChar(s: string, c: char, k: int)
    requires 0 <= k < |s|
    ensures OccursAt(s, [c], k) <==> s[k] == c
  {
    assert s[k..k + 1] == [s[k]];
  }

  /** A word does not start where the text has another character than its first. */
  lemma NotOccursAtHead(s: string, w: string, q: nat)
    requires |w| > 0 && q < |s| && s[q] != w[0]
    ensures !OccursAt(s, w, q)
  {
    if OccursAt(s, w, q) { OccursAtHead(s, w, q); }
  }

  /** A character a word has and a text lacks keeps the word out of the text. */
  lemma AbsentChar(s: string, w: string, i: nat)
    requires i < |w| && w[i] !in s
    ensures !Occurs(s, w)
  {

  }

  lemma OccursInSlice(s: string, a: nat, b: nat, w: string, k: int)
    requires a <= b <= |s| && OccursAt(s[a..b], w, k)
    ensures OccursAt(s, w, a + k)
  {
    InfixOfSlice(s, a, b, k, k + |w|);
  }

  /** A word missing from a text is missing from every piece of it. */
  lemma AbsentFromInfix(r: string, s: string, w: string)
    requires IsInfix(r, s) && !Occurs(s, w)
    ensures !Occurs(r, w)
  {
    var a, b :| 0 <= a <= b <= |s| && r == s[a..b];
    if k :| OccursAt(r, w, k) {
      OccursInSlice(s, a, b, w, k);
    }
  }

  function IndexOfFrom(s: string, w: string, from: nat): (r: Option<nat>)
    requires from <= |s|
    ensures r.Some? ==> from <= r.value && OccursAt(s, w, r.value)
    ensures r.Some? ==> forall q :: from <= q < r.value ==> !OccursAt(s, w, q)
    ensures r.None? ==> forall q :: from <= q ==> !OccursAt(s, w, q)
    decreases |s| - from
  {
    if OccursAt(s, w, from) then Some(from)
    else if from == |s| then None
    else IndexOfFrom(s, w, from + 1)
  }

  /** Python's `w in s`, computed. */
  function Contains(s: string, w: string): (b: bool)
    ensures b <==> Occurs(s, w)
  {
    IndexOfFrom(s, w, 0).Some?
  }

  /** Python's `s.split(w)[0]`, which raises on an empty separator. */
  function CutBefore(s: string, w: string): (r: string)
    requires w != []
    ensures r <= s
    ensures forall q :: 0 <= q < |r| ==> !OccursAt(s, w, q)
    ensures !Occurs(r, w)
    ensures Occurs(s, w) ==> OccursAt(s, w, |r|)
    ensures !Occurs(s, w) ==> r == s
  {
    match IndexOfFrom(s, w, 0)
    case None => s
    case Some(k) =>
      assert !Occurs(s[..k], w) by {
        if q :| OccursAt(s[..k], w, q) { OccursInSlice(s, 0, k, w, q); }
      }
      s[..k]
  }

  /** How many times `w` occurs in `s` at or after `from`, overlaps included. */
  function CountFrom(s: string, w: string, from: nat): nat
    requires from <= |s|
    decreases |s| - from
  {
    (if OccursAt(s, w, from) then 1 else 0) + (if from == |s| then 0 else CountFrom(s, w, from + 1))
  }

  function Count(s: string, w: string): nat {
    CountFrom(s, w, 0)
  }

  lemma {:induction false} CountSkip(s: string, w: string, a: nat, b: nat)
    requires a <= b <= |s|
    requires forall q :: a <= q < b ==> !OccursAt(s, w, q)
    ensures CountFrom(s, w, a) == CountFrom(s, w, b)
    decreases b - a
  {
    if a < b { CountSkip(s, w, a + 1, b); }
  }

  /** An occurrence at `k` adds one to the count from `k` on. */
  lemma CountAtOccurrence(s: string, w: string, k: nat)
    requires k <= |s| && OccursAt(s, w, k)
    ensures k < |s| || w == []
    ensures k < |s| ==> CountFrom(s, w, k) == 1 + CountFrom(s, w, k + 1)
  {
  }

  lemma {:induction false} CountNone(s: string, w: string, a: nat)
    requires a <= |s|
    requires forall q :: a <= q ==> !OccursAt(s, w, q)
    ensures CountFrom(s, w, a) == 0
    decreases |s| - a
  {
    if a < |s| { CountNone(s, w, a + 1); }
  }

  /** A text has some occurrence exactly when it has a positive count. */
  lemma {:induction false} CountPositive(s: string, w: string, from: nat, k: nat)
    requires from <= k <= |s| && OccursAt(s, w, k)
    ensures CountFrom(s, w, from) > 0
    decreases k - from
  {
    if from < k { CountPositive(s, w, from + 1, k); }
  }

  lemma CountZero(s: string, w: string)
    ensures Count(s, w) == 0 <==> !Occurs(s, w)
  {
    if Occurs(s, w) {
      var k :| OccursAt(s, w, k);
      CountPositive(s, w, 0, k);
    } else {
      CountNone(s, w, 0);
    }
  }

  // ---------------------------------------------------------------------------
  // Lines

  /** Lines joined back with newlines; the inverse of `Lines`. */
  function Join(ls: seq<string>): string
    requires |ls| >= 1
  {
    if |ls| == 1 then ls[0] else ls[0] + "\n" + Join(ls[1..])
  }

  /** Python's `s.split('\n')`. */
  function Lines(s: string): (ls: seq<string>)
    ensures |ls| >= 1
    ensures forall i :: 0 <= i < |ls| ==> '\n' !in ls[i]
    ensures Join(ls) == s
    decreases |s|
  {
    match IndexOfFrom(s, "\n", 0)
    case None =>
      assert '\n' !in s by {
        forall q | 0 <= q < |s| ensures s[q] != '\n' { OccursAtChar(s, '\n', q); }
      }
      [s]
    case Some(k) =>
      assert '\n' !in s[..k] by {
        forall q | 0 <= q < k ensures s[q] != '\n' { OccursAtChar(s, '\n', q); }
      }
      OccursAtChar(s, '\n', k);
      var rest := Lines(s[k + 1..]);
      assert s == s[..k] + "\n" + s[k + 1..];
      [s[..k]] + rest
  }

  /** Splitting newline-free lines joined with newlines gives the lines back. */
  lemma {:induction false} LinesOfJoin(ls: seq<string>)
    requires |ls| >= 1
    requires forall i :: 0 <= i < |ls| ==> '\n' !in ls[i]
    ensures Lines(Join(ls)) == ls
  {
    var s := Join(ls);
    if |ls| == 1 {
      assert forall q :: 0 <= q < |s| ==> !OccursAt(s, "\n", q) by {
        forall q | 0 <= q < |s| ensures !OccursAt(s, "\n", q) { OccursAtChar(s, '\n', q); }
      }
    } else {
      var k := |ls[0]|;
      assert s == ls[0] + "\n" + Join(ls[1..]);
      forall q | 0 <= q < k ensures !OccursAt(s, "\n", q) {
        OccursAtChar(s, '\n', q);
        assert s[q] == ls[0][q];
      }
      OccursAtChar(s, '\n', k);
      assert IndexOfFrom(s, "\n", 0) == Some(k) by {
        IndexOfFromFirst(s, "\n", 0, k);
      }
      assert s[..k] == ls[0];
      assert s[k + 1..] == Join(ls[1..]);
      LinesOfJoin(ls[1..]);
    }
  }

  lemma {:induction false} IndexOfFromFirst(s: string, w: string, from: nat, k: nat)
    requires from <= k <= |s|
    requires OccursAt(s, w, k) && forall q :: from <= q < k ==> !OccursAt(s, w, q)
    ensures IndexOfFrom(s, w, from) == Some(k)
    decreases k - from
  {
    if from < k { IndexOfFromFirst(s, w, from + 1, k); }
  }
}
