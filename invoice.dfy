/** The record scanner `estrai_tutto`: from the text of an invoice, joined over
    its pages and upper-cased, one label record per lot marker, each with the
    commercial name, scientific name, lot code, FAO zone and production method. */
module Invoice {
  import opened Text
  import ProductName

  const LotKeyword := "LOTTO"
  /** What a field that was not found reads ("not available"). */
  const NotFound := "N.D."
  const DefaultFaoZone := "37.2.1"
  const Farmed := "ALLEVATO"
  const Caught := "PESCATO"

  /** One label record, with the keys of the source's dictionary. */
  datatype Product = Product(nome: string, sci: string, lotto: string, fao: string, metodo: string)

  // ---------------------------------------------------------------------------
  // Segmenting on the lot marker `LOTTO\s*N?\.?\s*`

  /** Where the lot marker that starts at `k` ends. Each part of the pattern is
      greedy and nothing follows it, so it never gives a character back. */
  function MarkerEnd(s: string, k: nat): (e: nat)
    requires OccursAt(s, LotKeyword, k)
    ensures k + |LotKeyword| <= e <= |s|
    ensures forall q :: k + |LotKeyword| <= q < e ==> IsSpace(s[q]) || s[q] == 'N' || s[q] == '.'
    ensures e == |s| || !IsSpace(s[e])
  {
    var p1 := RunEnd(s, k + |LotKeyword|, IsSpace);
    var p2 := if p1 < |s| && s[p1] == 'N' then p1 + 1 else p1;
    var p3 := if p2 < |s| && s[p2] == '.' then p2 + 1 else p2;
    RunEnd(s, p3, IsSpace)
  }

  /** `s[k..e]` is the lot marker at `k` as the regex engine takes it: the
      "LOTTO" at `k`, then all of the whitespace after it (up to `a`), then the
      `N` at `a` exactly when there is one (up to `b`), then the dot at `b`
      exactly when there is one (up to `c`), then all of the whitespace after
      that (up to `e`). */
  ghost predicate GreedyMarker(s: string, k: nat, a: nat, b: nat, c: nat, e: nat) {
    OccursAt(s, LotKeyword, k) && k + |LotKeyword| <= a <= b <= c <= e <= |s|
    && (forall q :: k + |LotKeyword| <= q < a ==> IsSpace(s[q])) && (a == |s| || !IsSpace(s[a]))
    && ((b == a + 1 && s[a] == 'N') || (b == a && (a == |s| || s[a] != 'N')))
    && ((c == b + 1 && s[b] == '.') || (c == b && (b == |s| || s[b] != '.')))
    && (forall q :: c <= q < e ==> IsSpace(s[q])) && (e == |s| || !IsSpace(s[e]))
  }

  /** The marker at `k` has a greedy match, and every greedy match of it ends
      where `MarkerEnd` says. */
  lemma MarkerEndGreedy(s: string, k: nat)
    requires OccursAt(s, LotKeyword, k)
    ensures exists a, b, c :: GreedyMarker(s, k, a, b, c, MarkerEnd(s, k))
    ensures forall a, b, c, e :: GreedyMarker(s, k, a, b, c, e) ==> e == MarkerEnd(s, k)
  {
    var a := RunEnd(s, k + |LotKeyword|, IsSpace);
    var b := if a < |s| && s[a] == 'N' then a + 1 else a;
    var c := if b < |s| && s[b] == '.' then b + 1 else b;
    assert GreedyMarker(s, k, a, b, c, MarkerEnd(s, k));
    forall a', b', c', e' | GreedyMarker(s, k, a', b', c', e') ensures e' == MarkerEnd(s, k) {
      GreedyMarkerUnique(s, k, a, b, c, MarkerEnd(s, k), a', b', c', e');
    }
  }

  /** Each part of the marker pattern is maximal, so a greedy match is unique. */
  lemma GreedyMarkerUnique(s: string, k: nat, a: nat, b: nat, c: nat, e: nat, a': nat, b': nat, c': nat, e': nat)
    requires GreedyMarker(s, k, a, b, c, e) && GreedyMarker(s, k, a', b', c', e')
    ensures a == a' && b == b' && c == c' && e == e'
  {
  }

  /** `re.split(r'LOTTO\s*N?\.?\s*', s[from..])`: the texts between markers. */
  function SectionsFrom(s: string, from: nat): (secs: seq<string>)
    requires from <= |s|
    ensures |secs| >= 1
    ensures secs[0] == [] || (from < |s| && secs[0][0] == s[from])
    ensures forall i :: 0 <= i < |secs| ==> !Occurs(secs[i], LotKeyword)
    ensures forall i :: 1 <= i < |secs| ==> secs[i] == [] || !IsSpace(secs[i][0])
    decreases |s| - from
  {
    match IndexOfFrom(s, LotKeyword, from)
    case None =>
      NoLotInGap(s, from, |s|);
      assert s[from..] == s[from..|s|];
      [s[from..]]
    case Some(k) =>
      var e := MarkerEnd(s, k);
      var rest := SectionsFrom(s, e);
      NoLotInGap(s, from, k);
      ConsSection(s, from, k, e, rest);
      [s[from..k]] + rest
  }

  /** The text before the next marker, put in front of the sections after
      the marker, keeps the shape the split promises. */
  lemma ConsSection(s: string, from: nat, k: nat, e: nat, rest: seq<string>)
    requires from <= k <= e <= |s| && (e == |s| || !IsSpace(s[e]))
    requires !Occurs(s[from..k], LotKeyword)
    requires |rest| >= 1 && (rest[0] == [] || (e < |s| && rest[0][0] == s[e]))
    requires forall i :: 0 <= i < |rest| ==> !Occurs(rest[i], LotKeyword)
    requires forall i :: 1 <= i < |rest| ==> rest[i] == [] || !IsSpace(rest[i][0])
    ensures var secs := [s[from..k]] + rest;
      (secs[0] == [] || (from < |s| && secs[0][0] == s[from]))
      && (forall i :: 0 <= i < |secs| ==> !Occurs(secs[i], LotKeyword))
      && (forall i :: 1 <= i < |secs| ==> secs[i] == [] || !IsSpace(secs[i][0]))
  {
    var secs := [s[from..k]] + rest;
    forall i | 1 <= i < |secs| ensures secs[i] == rest[i - 1] { }
  }

  /** A stretch where no "LOTTO" starts holds none. */
  lemma NoLotInGap(s: string, from: nat, k: nat)
    requires from <= k <= |s| && forall q :: from <= q < k ==> !OccursAt(s, LotKeyword, q)
    ensures !Occurs(s[from..k], LotKeyword)
  {
    if q :| OccursAt(s[from..k], LotKeyword, q) {
      OccursInSlice(s, from, k, LotKeyword, q);
    }
  }

  function Sections(s: string): seq<string> {
    SectionsFrom(s, 0)
  }

  lemma NoLotInsideMarkerAll(s: string, k: nat)
    requires OccursAt(s, LotKeyword, k)
    ensures k + 1 <= MarkerEnd(s, k)
    ensures forall q :: k + 1 <= q < MarkerEnd(s, k) ==> !OccursAt(s, LotKeyword, q)
  {
    forall q | k + 1 <= q < MarkerEnd(s, k) ensures !OccursAt(s, LotKeyword, q) {
      NoLotInsideMarker(s, k, q);
    }
  }

  /** No other "LOTTO" starts inside a lot marker. */
  lemma NoLotInsideMarker(s: string, k: nat, q: nat)
    requires OccursAt(s, LotKeyword, k) && k + 1 <= q < MarkerEnd(s, k)
    ensures !OccursAt(s, LotKeyword, q)
  {
    if q < k + |LotKeyword| {
      assert s[q] == s[k..k + |LotKeyword|][q - k];
    }
    NotOccursAtHead(s, LotKeyword, q);
  }

  /** Every occurrence of "LOTTO" starts a marker of its own (the word cannot
      overlap itself and a marker holds no other "L"), so there is one section
      more than there are occurrences. */
  lemma {:induction false} SectionCount(s: string, from: nat)
    requires from <= |s|
    ensures |SectionsFrom(s, from)| == CountFrom(s, LotKeyword, from) + 1
    decreases |s| - from
  {
    match IndexOfFrom(s, LotKeyword, from)
    case None =>
      CountNone(s, LotKeyword, from);
    case Some(k) =>
      var e := MarkerEnd(s, k);
      SectionCount(s, e);
      CountAtMarker(s, from, k);
  }

  /** The occurrences from `from` on are the one at the next marker and those
      after it. */
  lemma CountAtMarker(s: string, from: nat, k: nat)
    requires from <= |s| && IndexOfFrom(s, LotKeyword, from) == Some(k)
    ensures CountFrom(s, LotKeyword, from) == 1 + CountFrom(s, LotKeyword, MarkerEnd(s, k))
  {
    NoLotInsideMarkerAll(s, k);
    CountAcross(s, from, k, MarkerEnd(s, k));
  }

  /** Between `from` and `e` the only occurrence is the one at `k`. */
  lemma CountAcross(s: string, from: nat, k: nat, e: nat)
    requires from <= k < e <= |s| && OccursAt(s, LotKeyword, k)
    requires forall q :: from <= q < k ==> !OccursAt(s, LotKeyword, q)
    requires forall q :: k + 1 <= q < e ==> !OccursAt(s, LotKeyword, q)
    ensures CountFrom(s, LotKeyword, from) == 1 + CountFrom(s, LotKeyword, e)
  {
    CountSkip(s, LotKeyword, from, k);
    CountAtOccurrence(s, LotKeyword, k);
    CountSkip(s, LotKeyword, k + 1, e);
  }

  /** `m` spans the next marker at or after `p`: the leftmost "LOTTO" there,
      up to where a greedy match of the marker pattern ends. */
  ghost predicate IsNextMarker(s: string, p: nat, m: (nat, nat)) {
    p <= m.0 && OccursAt(s, LotKeyword, m.0)
    && (forall q :: p <= q < m.0 ==> !OccursAt(s, LotKeyword, q))
    && exists a, b, c :: GreedyMarker(s, m.0, a, b, c, m.1)
  }

  /** `secs` and the marker spans `ms` are what `re.split` makes of `s[p..]`:
      with no "LOTTO" left the one section is the rest of the text; otherwise
      the first span is the next marker, the first section is the text before
      it, and the rest split what follows the marker. */
  ghost predicate SplitsAs(s: string, p: nat, secs: seq<string>, ms: seq<(nat, nat)>)
    decreases |ms|
  {
    p <= |s| && |secs| == |ms| + 1 &&
    if ms == [] then
      secs[0] == s[p..] && forall q :: p <= q ==> !OccursAt(s, LotKeyword, q)
    else
      IsNextMarker(s, p, ms[0]) && secs[0] == s[p..ms[0].0]
      && SplitsAs(s, ms[0].1, secs[1..], ms[1..])
  }

  /** Every span lies inside `s`, after a "LOTTO". */
  ghost predicate ValidSpans(s: string, ms: seq<(nat, nat)>) {
    forall j :: 0 <= j < |ms| ==> ms[j].0 + |LotKeyword| <= ms[j].1 <= |s|
  }

  /** The spans of the lot markers of `s[from..]`, in order. */
  function MarkersFrom(s: string, from: nat): (ms: seq<(nat, nat)>)
    requires from <= |s|
    ensures ValidSpans(s, ms)
    decreases |s| - from
  {
    match IndexOfFrom(s, LotKeyword, from)
    case None => []
    case Some(k) => [(k, MarkerEnd(s, k))] + MarkersFrom(s, MarkerEnd(s, k))
  }

  /** `SectionsFrom` splits exactly where `re.split` does: at each next
      "LOTTO" in turn, resuming after its marker. */
  lemma {:induction false} SectionsSplit(s: string, from: nat)
    requires from <= |s|
    ensures SplitsAs(s, from, SectionsFrom(s, from), MarkersFrom(s, from))
    decreases |s| - from
  {
    var secs, ms := SectionsFrom(s, from), MarkersFrom(s, from);
    match IndexOfFrom(s, LotKeyword, from)
    case None =>
    case Some(k) =>
      var e := MarkerEnd(s, k);
      MarkerEndGreedy(s, k);
      SectionsSplit(s, e);
      assert secs[1..] == SectionsFrom(s, e);
      assert ms[1..] == MarkersFrom(s, e);
  }

  /** There is only one next marker. */
  lemma NextMarkerUnique(s: string, p: nat, m: (nat, nat), m': (nat, nat))
    requires IsNextMarker(s, p, m) && IsNextMarker(s, p, m')
    ensures m == m'
  {
    assert m.0 == m'.0;
    var a, b, c :| GreedyMarker(s, m.0, a, b, c, m.1);
    var a', b', c' :| GreedyMarker(s, m.0, a', b', c', m'.1);
    GreedyMarkerUnique(s, m.0, a, b, c, m.1, a', b', c', m'.1);
  }

  /** There is only one such split, so `SplitsAs` pins the sections down. */
  lemma {:induction false} SplitsAsUnique(s: string, p: nat, secs: seq<string>, ms: seq<(nat, nat)>,
                                          secs': seq<string>, ms': seq<(nat, nat)>)
    requires SplitsAs(s, p, secs, ms) && SplitsAs(s, p, secs', ms')
    ensures secs == secs' && ms == ms'
    decreases |ms|
  {
    if ms != [] && ms' != [] {
      NextMarkerUnique(s, p, ms[0], ms'[0]);
      SplitsAsUnique(s, ms[0].1, secs[1..], ms[1..], secs'[1..], ms'[1..]);
      assert secs == [secs[0]] + secs[1..] && secs' == [secs'[0]] + secs'[1..];
      assert ms == [ms[0]] + ms[1..] && ms' == [ms'[0]] + ms'[1..];
    }
  }

  /** The text of each marker span. */
  function MarkerTexts(s: string, ms: seq<(nat, nat)>): (ts: seq<string>)
    requires ValidSpans(s, ms)
    ensures |ts| == |ms|
    ensures forall j :: 0 <= j < |ms| ==> ts[j] == s[ms[j].0..ms[j].1]
    decreases |ms|
  {
    if ms == [] then [] else [s[ms[0].0..ms[0].1]] + MarkerTexts(s, ms[1..])
  }

  /** The sections glued back together with the separators between them. */
  function Rejoin(secs: seq<string>, seps: seq<string>): string
    requires |secs| == |seps| + 1
    decreases |seps|
  {
    if seps == [] then secs[0] else secs[0] + seps[0] + Rejoin(secs[1..], seps[1..])
  }

  /** A split loses nothing: the sections with the marker texts put back
      between them are the text that was split. */
  lemma {:induction false} SplitsAsRejoin(s: string, p: nat, secs: seq<string>, ms: seq<(nat, nat)>)
    requires SplitsAs(s, p, secs, ms) && ValidSpans(s, ms)
    ensures Rejoin(secs, MarkerTexts(s, ms)) == s[p..]
    decreases |ms|
  {
    if ms != [] {
      var k, e := ms[0].0, ms[0].1;
      var secs', ms' := secs[1..], ms[1..];
      assert p <= k && secs[0] == s[p..k] && SplitsAs(s, e, secs', ms');
      assert ValidSpans(s, ms') by {
        forall j | 0 <= j < |ms'| ensures ms'[j].0 + |LotKeyword| <= ms'[j].1 <= |s| {
          assert ms'[j] == ms[j + 1];
        }
      }
      SplitsAsRejoin(s, e, secs', ms');
      var ts := MarkerTexts(s, ms);
      assert ts[0] == s[k..e] && ts[1..] == MarkerTexts(s, ms');
      assert Rejoin(secs, ts) == secs[0] + ts[0] + Rejoin(secs', ts[1..]);
      SliceThree(s, p, k, e);
    }
  }

  /** Re-joining the sections of `estrai_tutto`'s split with their markers
      gives back the text. */
  lemma SectionsRejoin(s: string)
    ensures |Sections(s)| == |MarkersFrom(s, 0)| + 1
    ensures Rejoin(Sections(s), MarkerTexts(s, MarkersFrom(s, 0))) == s
  {
    SectionsSplit(s, 0);
    SplitsAsRejoin(s, 0, Sections(s), MarkersFrom(s, 0));
  }

  // ---------------------------------------------------------------------------
  // The scientific name: `re.search(r'\((.*?)\)', pre)`

  /** `m` is the nearest `)` at or after `from` with no newline before it. */
  ghost predicate ClosesAt(s: string, from: nat, m: nat) {
    from <= m < |s| && s[m] == ')'
    && forall q :: from <= q < m ==> s[q] != ')' && s[q] != '\n'
  }

  function CloseParen(s: string, from: nat): (r: Option<nat>)
    requires from <= |s|
    ensures r.Some? ==> ClosesAt(s, from, r.value)
    ensures r.None? ==> forall m: nat :: !ClosesAt(s, from, m)
    decreases |s| - from
  {
    if from == |s| || s[from] == '\n' then None
    else if s[from] == ')' then Some(from)
    else
      assert forall m: nat :: ClosesAt(s, from, m) ==> ClosesAt(s, from + 1, m);
      CloseParen(s, from + 1)
  }

  /** An opening parenthesis at `k` with its group closed on the same line. */
  ghost predicate ParenGroup(s: string, k: nat, m: nat) {
    k < |s| && s[k] == '(' && ClosesAt(s, k + 1, m)
  }

  ghost predicate FirstParenGroup(s: string, k: nat, m: nat) {
    ParenGroup(s, k, m) && forall k': nat, m': nat :: ParenGroup(s, k', m') ==> k <= k'
  }

  /** `\((.*?)\)` matches at `k`. */
  predicate ParenAt(s: string, k: nat) {
    k < |s| && s[k] == '(' && CloseParen(s, k + 1).Some?
  }

  lemma ParenGroupFound(s: string, k: nat, m: nat)
    requires ParenGroup(s, k, m)
    ensures ParenAt(s, k) && CloseParen(s, k + 1) == Some(m)
  {
  }

  /** The scientific name: the text of the leftmost group `(...)` that closes
      on its own line, up to its nearest `)`; "N.D." when there is none. */
  function SciName(s: string): (r: string)
    ensures (forall k: nat, m: nat :: !ParenGroup(s, k, m)) ==> r == NotFound
    ensures forall k: nat, m: nat :: FirstParenGroup(s, k, m) ==> r == s[k + 1..m]
  {
    match Leftmost(s, ParenAt, 0)
    case None =>
      assert forall k: nat, m: nat :: !ParenGroup(s, k, m) by {
        forall k: nat, m: nat | ParenGroup(s, k, m) ensures false { ParenGroupFound(s, k, m); }
      }
      NotFound
    case Some(k) =>
      var m := CloseParen(s, k + 1).value;
      assert ParenGroup(s, k, m);
      assert forall k': nat, m': nat :: FirstParenGroup(s, k', m') ==> k' == k && m' == m by {
        forall k': nat, m': nat | FirstParenGroup(s, k', m') ensures k' == k && m' == m {
          ParenGroupFound(s, k', m');
          assert ParenGroup(s, k, m);
        }
      }
      s[k + 1..m]
  }

  /** The scientific name never spans a line and holds no `)`. */
  lemma SciNameOnOneLine(s: string)
    ensures forall i :: 0 <= i < |SciName(s)| ==> SciName(s)[i] != '\n' && SciName(s)[i] != ')'
  {
    match Leftmost(s, ParenAt, 0)
    case None =>
    case Some(k) =>
      var m := CloseParen(s, k + 1).value;
      assert SciName(s) == s[k + 1..m];
  }

  // ---------------------------------------------------------------------------
  // The raw name: the loop over the lines of the stripped pre-section

  /** The last line before `n` that contains `sci`. */
  function LastLineWith(lines: seq<string>, sci: string, n: nat): (r: Option<nat>)
    requires n <= |lines|
    ensures r.Some? ==> r.value < n && Occurs(lines[r.value], sci)
    ensures r.Some? ==> forall q :: r.value < q < n ==> !Occurs(lines[q], sci)
    ensures r.None? ==> forall q :: 0 <= q < n ==> !Occurs(lines[q], sci)
  {
    if n == 0 then None
    else if Contains(lines[n - 1], sci) then Some(n - 1)
    else LastLineWith(lines, sci, n - 1)
  }

  /** The name fragment a matching line gives: its text before the first `(`,
      stripped, or the previous line stripped when that is under 3 characters. */
  function NameFragment(lines: seq<string>, j: nat): string
    requires j < |lines|
  {
    var f := Strip(CutBefore(lines[j], "("));
    if |f| < 3 && j > 0 then Strip(lines[j - 1]) else f
  }

  /** The raw name after the loop has seen the first `n` lines. */
  function RawNameUpTo(lines: seq<string>, sci: string, n: nat): string
    requires n <= |lines|
  {
    match LastLineWith(lines, sci, n)
    case None => ProductName.Sentinel
    case Some(j) => NameFragment(lines, j)
  }

  /** The fragment of the last line that contains `sci` is the raw name. */
  lemma RawNameLastLine(lines: seq<string>, sci: string, j: nat)
    requires j < |lines| && Occurs(lines[j], sci)
    requires forall q :: j < q < |lines| ==> !Occurs(lines[q], sci)
    ensures RawNameUpTo(lines, sci, |lines|) == NameFragment(lines, j)
  {
    assert LastLineWith(lines, sci, |lines|) == Some(j);
  }

  /** With no line containing `sci`, the raw name stays "PESCE". */
  lemma RawNameNoLine(lines: seq<string>, sci: string)
    requires forall q :: 0 <= q < |lines| ==> !Occurs(lines[q], sci)
    ensures RawNameUpTo(lines, sci, |lines|) == ProductName.Sentinel
  {
  }

  /** The inner loop of `estrai_tutto`: every line that contains `sci`
      overwrites the raw name, so the last such line wins. */
  method PickRawName(lines: seq<string>, sci: string) returns (nome: string)
    ensures nome == RawNameUpTo(lines, sci, |lines|)
  {
    nome := ProductName.Sentinel;
    var j := 0;
    while j < |lines|
      invariant j <= |lines|
      invariant nome == RawNameUpTo(lines, sci, j)
    {
      var riga := lines[j];
      if Contains(riga, sci) {
        nome := Strip(CutBefore(riga, "("));
        if |nome| < 3 && j > 0 {
          nome := Strip(lines[j - 1]);
        }
      }
      j := j + 1;
    }
  }

  // ---------------------------------------------------------------------------
  // Lot code, FAO zone, production method

  /** The class `[A-Z0-9\s/\\-]` of a lot code. */
  predicate IsLotChar(c: char) {
    IsUpperLetter(c) || IsDigit(c) || IsSpace(c) || c == '/' || c == '\\' || c == '-'
  }

  /** `e` ends the run of lot-code characters the post-section starts with. */
  ghost predicate LeadingLotRun(post: string, e: nat) {
    0 < e <= |post| && (forall q :: 0 <= q < e ==> IsLotChar(post[q]))
    && (e == |post| || !IsLotChar(post[e]))
  }

  /** `re.search(r'^([A-Z0-9\s/\\-]+)', post)`, stripped; "N.D." when the
      section does not start with a lot-code character. */
  function LotCode(post: string): (r: string)
    ensures r == NotFound <==> post == [] || !IsLotChar(post[0])
    ensures forall e: nat :: LeadingLotRun(post, e) ==> r == Strip(post[..e])
    ensures r != NotFound ==> forall i :: 0 <= i < |r| ==> IsLotChar(r[i])
    ensures r == [] ==> |post| > 0 && IsSpace(post[0])
  {
    var e := RunEnd(post, 0, IsLotChar);
    if e == 0 then NotFound
    else
      LeadingLotRunFacts(post, e);
      Strip(post[..e])
  }

  lemma LeadingLotRunFacts(post: string, e: nat)
    requires e == RunEnd(post, 0, IsLotChar) && e > 0
    ensures forall e': nat :: LeadingLotRun(post, e') ==> e' == e
    ensures var r := Strip(post[..e]);
      r != NotFound && (forall i :: 0 <= i < |r| ==> IsLotChar(r[i]))
      && (r == [] ==> IsSpace(post[0]))
  {
    var x := post[..e];
    assert x[0] == post[0];
    StripLotRun(x);
  }

  /** Stripping a run of lot characters leaves lot characters only, so never
      "N.D.", whose dots are not lot characters. */
  lemma StripLotRun(x: string)
    requires forall q :: 0 <= q < |x| ==> IsLotChar(x[q])
    ensures var r := Strip(x);
      r != NotFound && (forall i :: 0 <= i < |r| ==> IsLotChar(r[i]))
      && (r == [] && |x| > 0 ==> IsSpace(x[0]))
  {
    var r := Strip(x);
    var a := StripStart(x);
    assert forall i :: 0 <= i < |r| ==> r[i] == x[a + i];
    assert NotFound[1] == '.';
    if r == [] && |x| > 0 {
      assert StrippedAt(x, a, a);
    }
  }

  predicate IsZoneChar(c: char) { IsDigit(c) || c == '.' }

  /** `FAO\s*([\d\.]+)` matches at `k`: "FAO", any spaces, then a digit or dot. */
  predicate FaoAt(s: string, k: nat) {
    OccursAt(s, "FAO", k) &&
    var p := RunEnd(s, k + 3, IsSpace);
    p < |s| && IsZoneChar(s[p])
  }

  ghost predicate FirstFaoAt(s: string, k: nat) {
    FaoAt(s, k) && forall q: nat :: q < k ==> !FaoAt(s, q)
  }

  /** `r` is the whole run of digits and dots that starts at `p`. */
  ghost predicate ZoneRunAt(s: string, p: nat, r: string) {
    |r| > 0 && p + |r| <= |s| && r == s[p..p + |r|]
    && (forall i :: 0 <= i < |r| ==> IsZoneChar(r[i]))
    && (p + |r| == |s| || !IsZoneChar(s[p + |r|]))
  }

  /** The FAO zone: the whole run of digits and dots after the first "FAO" that
      has one behind optional spaces; "37.2.1" when no "FAO" has one. */
  function FaoZone(s: string): (r: string)
    ensures (forall k: nat :: !FaoAt(s, k)) ==> r == DefaultFaoZone
    ensures forall k: nat :: FirstFaoAt(s, k) ==> ZoneRunAt(s, RunEnd(s, k + 3, IsSpace), r)
  {
    match Leftmost(s, FaoAt, 0)
    case None => DefaultFaoZone
    case Some(k) =>
      var p := RunEnd(s, k + 3, IsSpace);
      var r := s[p..RunEnd(s, p, IsZoneChar)];
      FirstFaoZone(s, k, p, r);
      r
  }

  /** The zone run behind the first qualifying "FAO" is the one behind every
      first qualifying "FAO", as there is only one. */
  lemma FirstFaoZone(s: string, k: nat, p: nat, r: string)
    requires FaoAt(s, k) && forall q: nat :: q < k ==> !FaoAt(s, q)
    requires p == RunEnd(s, k + 3, IsSpace) && r == s[p..RunEnd(s, p, IsZoneChar)]
    ensures forall k': nat :: FirstFaoAt(s, k') ==> ZoneRunAt(s, RunEnd(s, k' + 3, IsSpace), r)
  {
    FirstFaoUnique(s, k);
    assert ZoneRunAt(s, p, r);
  }

  lemma FirstFaoUnique(s: string, k: nat)
    requires FaoAt(s, k) && forall q: nat :: q < k ==> !FaoAt(s, q)
    ensures forall k': nat :: FirstFaoAt(s, k') ==> k' == k
  {
  }

  /** "ALLEVATO" (farmed) exactly when the pre-section says so, else "PESCATO". */
  function ProductionMethod(pre: string): (r: string)
    ensures r == Farmed || r == Caught
    ensures r == Farmed <==> Occurs(pre, Farmed)
  {
    if Contains(pre, Farmed) then Farmed else Caught
  }

  // ---------------------------------------------------------------------------
  // The records

  /** The record the pair (pre-section, post-section) gives. */
  function ProductOf(pre: string, post: string): Product {
    var sci := SciName(pre);
    var lines := Lines(Strip(pre));
    Product(ProductName.Cleaned(RawNameUpTo(lines, sci, |lines|)), sci,
            LotCode(post), FaoZone(pre), ProductionMethod(pre))
  }

  /** Appending the record of pair `i` to the records of the pairs before it
      keeps every record with its own pair. */
  lemma RecordsExtend(secs: seq<string>, ps: seq<Product>, p: Product, i: nat)
    requires |ps| == i && i + 1 < |secs| && p == ProductOf(secs[i], secs[i + 1])
    requires forall k :: 0 <= k < i ==> ps[k] == ProductOf(secs[k], secs[k + 1])
    ensures forall k :: 0 <= k < i + 1 ==> (ps + [p])[k] == ProductOf(secs[k], secs[k + 1])
  {
    forall k | 0 <= k < i + 1 ensures (ps + [p])[k] == ProductOf(secs[k], secs[k + 1]) {
      if k < i { assert (ps + [p])[k] == ps[k]; }
    }
  }

  /** The name on every record is a cleaned name: no size grade and no stop
      word survives in it. */
  lemma RecordNameClean(pre: string, post: string)
    ensures !ProductName.HasSizeGrade(ProductOf(pre, post).nome)
    ensures forall w :: w in ProductName.StopWords ==> !Occurs(ProductOf(pre, post).nome, w)
  {
    var lines := Lines(Strip(pre));
    var raw := RawNameUpTo(lines, SciName(pre), |lines|);
    ProductName.CleanedHasNoSizeGrade(raw);
    ProductName.CleanedHasNoStopWord(raw);
  }

  /** The lot-code class holds whitespace, newlines included, so a lot code
      runs on into the next line while that line has only code characters. */
  lemma LotCodeSpansLines()
    ensures LotCode("A1\nB2(") == "A1\nB2"
  {
    var post := "A1\nB2(";
    assert RunEnd(post, 0, IsLotChar) == 5;
    assert Strip(post[..5]) == "A1\nB2";
  }

  /** A section after a marker starts with no whitespace, so its lot is
      never the empty text; it may be "N.D.". */
  lemma LotNonEmpty(post: string)
    requires post == [] || !IsSpace(post[0])
    ensures LotCode(post) != []
  {
  }

  /** `estrai_tutto` on the joined, upper-cased text: one record per pair of
      adjacent sections, in marker order; the section after the last marker
      only supplies that record's lot. */
  method ExtractAll(testo: string) returns (prodotti: seq<Product>)
    ensures |prodotti| == Count(testo, LotKeyword)
    ensures var secs := Sections(testo);
      |prodotti| == |secs| - 1
      && forall i :: 0 <= i < |prodotti| ==> prodotti[i] == ProductOf(secs[i], secs[i + 1])
    ensures prodotti == [] <==> !Occurs(testo, LotKeyword)
    ensures forall i :: 0 <= i < |prodotti| ==> prodotti[i].lotto != []
  {
    var sezioni := Sections(testo);
    prodotti := ExtractRecords(sezioni);
    SectionCount(testo, 0);
    CountZero(testo, LotKeyword);
    LotsPresent(sezioni, prodotti);
  }

  /** The loop of `estrai_tutto` over the adjacent pairs of sections, appending
      one record per pair. */
  method ExtractRecords(sezioni: seq<string>) returns (prodotti: seq<Product>)
    requires |sezioni| >= 1
    ensures |prodotti| == |sezioni| - 1
    ensures forall k :: 0 <= k < |prodotti| ==> prodotti[k] == ProductOf(sezioni[k], sezioni[k + 1])
  {
    prodotti := [];
    var i := 0;
    while i < |sezioni| - 1
      invariant |prodotti| == i <= |sezioni| - 1
      invariant forall k :: 0 <= k < i ==> prodotti[k] == ProductOf(sezioni[k], sezioni[k + 1])
    {
      var prodotto := ExtractProduct(sezioni[i], sezioni[i + 1]);
      RecordsExtend(sezioni, prodotti, prodotto, i);
      prodotti := prodotti + [prodotto];
      i := i + 1;
    }
  }

  /** Sections after the first start with no whitespace, so every record has a
      non-empty lot. */
  lemma LotsPresent(secs: seq<string>, ps: seq<Product>)
    requires |ps| < |secs|
    requires forall i :: 0 <= i < |ps| ==> ps[i] == ProductOf(secs[i], secs[i + 1])
    requires forall i :: 1 <= i < |secs| ==> secs[i] == [] || !IsSpace(secs[i][0])
    ensures forall i :: 0 <= i < |ps| ==> ps[i].lotto != []
  {
    forall i | 0 <= i < |ps| ensures ps[i].lotto != [] {
      LotNonEmpty(secs[i + 1]);
    }
  }

  /** One turn of the loop of `estrai_tutto`: the record of the text before a
      marker and the text after it. */
  method ExtractProduct(bloccoPre: string, bloccoPost: string) returns (prodotto: Product)
    ensures prodotto == ProductOf(bloccoPre, bloccoPost)
  {
    var scientifico := SciName(bloccoPre);
    var nomeGrezzo := PickRawName(Lines(Strip(bloccoPre)), scientifico);
    var nome := ProductName.CleanProductName(nomeGrezzo);
    var lotto := LotCode(bloccoPost);
    var fao := FaoZone(bloccoPre);
    var metodo := ProductionMethod(bloccoPre);
    prodotto := Product(nome, scientifico, lotto, fao, metodo);
  }
}
