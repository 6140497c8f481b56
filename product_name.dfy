/** The commercial-name cleaner of the invoice scanner, `pulisci_nome_prodotto`:
    it isolates the fish name in a fragment of invoice text by cutting away
    size grades, FAO area numbers, stop words and trailing punctuation. */
module ProductName {
  import opened Text

  /** What an empty fragment is named ("fish"). */
  const Sentinel := "PESCE"

  /** The words that end a commercial name, in the order they are tried. */
  const StopWords: seq<string> := [
    "EF", "ZONA", "FAO", "PESCATO", "ALLEVATO", "ATTREZZI",
    "FRANCIA", "GRECIA", "SPAGNA", "ITALIA", "MAROCCO", "TUNISIA",
    "SCIABICHE", "RETI", "AMI", "VOLANTE", "N.", "N\U{B0}"
  ]

  lemma StopWordsNonEmpty()
    ensures forall w :: w in StopWords ==> w != []
  {
  }

  // ---------------------------------------------------------------------------
  // The patterns

  predicate IsGradeSeparator(c: char) { c == '-' || c == '/' }

  /** The size-grade pattern `\d+[\-/]\d+` matches at `k` ("300-400", "1/2"):
      the digits from `k` on end in a hyphen or slash that a digit follows. */
  predicate SizeGradeAt(s: string, k: nat) {
    k < |s| && IsDigit(s[k]) &&
    var j := RunEnd(s, k, IsDigit);
    j + 1 < |s| && IsGradeSeparator(s[j]) && IsDigit(s[j + 1])
  }

  ghost predicate HasSizeGrade(s: string) {
    exists k: nat :: SizeGradeAt(s, k)
  }

  /** The pattern `\b(27|37)\b` matches at `k`: the FAO area number 27 or 37
      standing as a word of its own. */
  predicate AreaNumberAt(s: string, k: nat) {
    k + 2 <= |s| && (s[k..k + 2] == "27" || s[k..k + 2] == "37")
    && (k == 0 || !IsWordChar(s[k - 1]))
    && (k + 2 == |s| || !IsWordChar(s[k + 2]))
  }

  /** The class `[\.\,:\-_/]`. */
  predicate IsTrailingPunct(c: char) {
    c == '.' || c == ',' || c == ':' || c == '-' || c == '_' || c == '/'
  }

  /** The first place `$` matches: before a final newline, else the end. */
  function EndAnchor(s: string): (e: nat)
    ensures e <= |s|
    ensures e == |s| || (e == |s| - 1 && s[e] == '\n')
    ensures |s| > 0 && s[|s| - 1] == '\n' ==> e == |s| - 1
  {
    if |s| > 0 && s[|s| - 1] == '\n' then |s| - 1 else |s|
  }

  /** `re.sub(r'[\.\,:\-_/]+$', '', s)`: the whole run of trailing punctuation
      that ends the text, or ends it before a final newline, is removed. */
  function DropTrailingPunct(s: string): (r: string)
    ensures |r| <= |s|
    ensures var e := EndAnchor(s); var b := |r| - (|s| - e);
      0 <= b <= e && r == s[..b] + s[e..]
      && (forall q :: b <= q < e ==> IsTrailingPunct(s[q]))
      && (b == 0 || !IsTrailingPunct(s[b - 1]))
  {
    var e := EndAnchor(s);
    var b := RunStart(s, e, IsTrailingPunct);
    s[..b] + s[e..]
  }

  /** The stop-word loop: for each word in turn, keep the text before its first
      occurrence, if it has one. What is left is a prefix free of every word,
      and it is either the whole text or ends where one of the words starts. */
  function CutAtStopWords(s: string, words: seq<string>): (r: string)
    requires forall w :: w in words ==> w != []
    ensures r <= s
    ensures forall w :: w in words ==> !Occurs(r, w)
    ensures r == s || exists w :: w in words && OccursAt(s, w, |r|)
    decreases |words|
  {
    if words == [] then s
    else
      assert words[0] in words;
      assert forall w :: w in words[1..] ==> w in words;
      var c := CutBefore(s, words[0]);
      var r := CutAtStopWords(c, words[1..]);
      PrefixIsInfix(r, c);
      AbsentFromInfix(r, c, words[0]);
      assert forall w :: w in words ==> w == words[0] || w in words[1..];
      CutEndsAtWord(s, c, r, words);
      r
  }

  /** One turn of the stop-word loop keeps "the whole text, or up to where a
      word starts": the first word cuts `s` to `c` there, and the later words
      cut `c` to `r` there; an occurrence in the prefix `c` is one in `s`. */
  lemma CutEndsAtWord(s: string, c: string, r: string, words: seq<string>)
    requires words != [] && c <= s
    requires c == s || OccursAt(s, words[0], |c|)
    requires r == c || exists w :: w in words[1..] && OccursAt(c, w, |r|)
    ensures r == s || exists w :: w in words && OccursAt(s, w, |r|)
  {
    if r != c {
      var w :| w in words[1..] && OccursAt(c, w, |r|);
      assert c == s[0..|c|];
      OccursInSlice(s, 0, |c|, w, |r|);
      assert w in words;
    } else if c != s {
      assert words[0] in words;
    }
  }

  /** What `pulisci_nome_prodotto` returns for a str argument. */
  function Cleaned(t: string): string {
    if t == [] then Sentinel
    else
      StopWordsNonEmpty();
      var s1 := BeforeFirst(Strip(Upper(t)), SizeGradeAt);
      var s2 := BeforeFirst(s1, AreaNumberAt);
      Strip(DropTrailingPunct(CutAtStopWords(s2, StopWords)))
  }

  /** `pulisci_nome_prodotto(t)`, with the text rebound step by step as the
      source does. */
  method CleanProductName(t: string) returns (r: string)
    ensures r == Cleaned(t)
  {
    if t == [] {
      return Sentinel;
    }
    StopWordsNonEmpty();
    var s := Strip(Upper(t));
    s := BeforeFirst(s, SizeGradeAt);
    s := BeforeFirst(s, AreaNumberAt);
    s := CutAtEachWord(s, StopWords);
    r := Strip(DropTrailingPunct(s));
  }

  /** The loop over the stop words: each word that occurs cuts the text before
      its first occurrence, in list order. */
  method CutAtEachWord(s: string, words: seq<string>) returns (r: string)
    requires forall w :: w in words ==> w != []
    ensures r == CutAtStopWords(s, words)
  {
    r := s;
    var i := 0;
    while i < |words|
      invariant i <= |words|
      invariant forall w :: w in words[i..] ==> w in words
      invariant CutAtStopWords(r, words[i..]) == CutAtStopWords(s, words)
    {
      var w := words[i];
      assert w in words;
      if Contains(r, w) {
        r := CutBefore(r, w);
      }
      assert words[i..][1..] == words[i + 1..];
      i := i + 1;
    }
  }

  // ---------------------------------------------------------------------------
  // What the cleaned name is

  lemma SizeGradeInSlice(s: string, a: nat, b: nat, k: nat)
    requires a <= b <= |s| && SizeGradeAt(s[a..b], k)
    ensures SizeGradeAt(s, a + k)
  {
    var t := s[a..b];
    var j := RunEnd(t, k, IsDigit);
    forall q | a + k <= q < a + j ensures IsDigit(s[q]) {
      assert s[q] == t[q - a];
    }
    assert s[a + j] == t[j];
    assert s[a + j + 1] == t[j + 1];
    assert RunEnd(s, a + k, IsDigit) == a + j;
  }

  /** No piece of a text without a size grade has one. */
  lemma NoSizeGradeInInfix(r: string, s: string)
    requires IsInfix(r, s) && !HasSizeGrade(s)
    ensures !HasSizeGrade(r)
  {
    var a, b :| 0 <= a <= b <= |s| && r == s[a..b];
    if k: nat :| SizeGradeAt(r, k) {
      SizeGradeInSlice(s, a, b, k);
    }
  }

  /** Cutting before the leftmost size grade leaves none. */
  lemma BeforeFirstSizeGrade(s: string)
    ensures !HasSizeGrade(BeforeFirst(s, SizeGradeAt))
  {
    var r := BeforeFirst(s, SizeGradeAt);
    if k: nat :| SizeGradeAt(r, k) {
      SizeGradeInSlice(s, 0, |r|, k);
    }
  }

  /** What is left after the cut ends in nothing or in the final newline,
      which `strip` removes. */
  lemma StripBeforeFinalNewline(x: string, y: string)
    requires y == [] || y == ['\n']
    ensures Strip(x + y) == Strip(x)
  {
    if y == [] {
      assert x + y == x;
    } else {
      StripAppendSpace(x, '\n');
    }
  }

  /** A stripped prefix is a piece of the text. */
  lemma StrippedPrefixIsInfix(s: string, b: nat)
    requires b <= |s|
    ensures IsInfix(Strip(s[..b]), s)
  {
    PrefixIsInfix(s[..b], s);
    StripIsInfix(s[..b]);
    InfixTransitive(Strip(s[..b]), s[..b], s);
  }

  /** Dropping trailing punctuation and stripping leaves a piece of the text. */
  lemma DropAndStripIsInfix(s: string)
    ensures IsInfix(Strip(DropTrailingPunct(s)), s)
  {
    var e := EndAnchor(s);
    var d := DropTrailingPunct(s);
    var b := |d| - (|s| - e);
    assert d == s[..b] + s[e..];
    assert s[e..] == [] || s[e..] == ['\n'] by {
      if e < |s| { assert s[e..] == [s[e]]; }
    }
    StripBeforeFinalNewline(s[..b], s[e..]);
    StrippedPrefixIsInfix(s, b);
  }

  /** The steps after upper-casing and stripping only cut a prefix off or trim. */
  lemma CleanedIsInfixOfCut(t: string)
    requires t != []
    ensures IsInfix(Cleaned(t), BeforeFirst(Strip(Upper(t)), SizeGradeAt))
  {
    StopWordsNonEmpty();
    var s1 := BeforeFirst(Strip(Upper(t)), SizeGradeAt);
    var s2 := BeforeFirst(s1, AreaNumberAt);
    var s3 := CutAtStopWords(s2, StopWords);
    DropAndStripIsInfix(s3);
    PrefixIsInfix(s3, s1);
    InfixTransitive(Cleaned(t), s3, s1);
  }

  /** The cleaned name is a contiguous piece of the upper-cased, stripped input. */
  lemma CleanedIsInfix(t: string)
    requires t != []
    ensures IsInfix(Cleaned(t), Strip(Upper(t)))
  {
    var s0 := Strip(Upper(t));
    CleanedIsInfixOfCut(t);
    PrefixIsInfix(BeforeFirst(s0, SizeGradeAt), s0);
    InfixTransitive(Cleaned(t), BeforeFirst(s0, SizeGradeAt), s0);
  }

  /** The cleaned name holds no size grade. */
  lemma CleanedHasNoSizeGrade(t: string)
    ensures !HasSizeGrade(Cleaned(t))
  {
    if t == [] {
      assert forall k: nat :: k < |Sentinel| ==> !IsDigit(Sentinel[k]);
    } else {
      var s1 := BeforeFirst(Strip(Upper(t)), SizeGradeAt);
      BeforeFirstSizeGrade(Strip(Upper(t)));
      CleanedIsInfixOfCut(t);
      NoSizeGradeInInfix(Cleaned(t), s1);
    }
  }

  lemma SentinelHasNoStopWord()
    ensures forall w :: w in StopWords ==> !Occurs(Sentinel, w)
  {
    forall w | w in StopWords ensures !Occurs(Sentinel, w) {
      var i := if w == "EF" then 1 else if w == "PESCATO" then 5
               else if w == "SPAGNA" || w == "SCIABICHE" then 2 else 0;
      AbsentChar(Sentinel, w, i);
    }
  }

  /** No stop word occurs in the cleaned name, not even inside a longer word. */
  lemma CleanedHasNoStopWord(t: string)
    ensures forall w :: w in StopWords ==> !Occurs(Cleaned(t), w)
  {
    if t == [] {
      SentinelHasNoStopWord();
    } else {
      StopWordsNonEmpty();
      var s1 := BeforeFirst(Strip(Upper(t)), SizeGradeAt);
      var s2 := BeforeFirst(s1, AreaNumberAt);
      var s3 := CutAtStopWords(s2, StopWords);
      DropAndStripIsInfix(s3);
      forall w | w in StopWords ensures !Occurs(Cleaned(t), w) {
        AbsentFromInfix(Cleaned(t), s3, w);
      }
    }
  }

  lemma InfixOccurs(r: string, s: string)
    requires IsInfix(r, s)
    ensures Occurs(s, r)
  {
    var a, b :| 0 <= a <= b <= |s| && r == s[a..b];
    assert OccursAt(s, r, a);
  }

  /** A fragment of whitespace only is not empty, so it cleans to "", not to
      the sentinel. */
  lemma CleanedBlank(t: string)
    requires t != [] && forall i :: 0 <= i < |t| ==> IsSpace(t[i])
    ensures Cleaned(t) == []
  {
    var u := Upper(t);
    assert forall i :: 0 <= i < |u| ==> IsSpace(u[i]);
    assert StripStart(u) == |u|;
    assert Strip(u) == [];
  }

  /** The sentinel comes from an empty fragment, or from one that spells it. */
  lemma CleanedSentinel(t: string)
    ensures t == [] ==> Cleaned(t) == Sentinel
    ensures Cleaned(t) == Sentinel ==> t == [] || Occurs(Upper(t), Sentinel)
  {
    if t != [] {
      var u := Upper(t);
      var c := Cleaned(t);
      CleanedIsInfix(t);
      StripIsInfix(u);
      InfixTransitive(c, Strip(u), u);
      InfixOccurs(c, u);
    }
  }

  // ---------------------------------------------------------------------------
  // Cleaning twice

  /** A text in which no stop word occurs passes the stop-word loop unchanged. */
  lemma {:induction false} CutAtStopWordsNoneOccurs(s: string, words: seq<string>)
    requires forall j :: 0 <= j < |words| ==> words[j] != [] && !Occurs(s, words[j])
    ensures forall w :: w in words ==> w != []
    ensures CutAtStopWords(s, words) == s
    decreases |words|
  {
    if words != [] {
      CutAtStopWordsNoneOccurs(s, words[1..]);
    }
  }

  /** The stop words from index `lo` to `hi` do not occur in `c`. */
  ghost predicate StopWordsAbsent(c: string, lo: nat, hi: nat) {
    hi <= |StopWords| && forall j :: lo <= j < hi ==> StopWords[j] != [] && !Occurs(c, StopWords[j])
  }

  /** The characters of the sample names below. */
  const SampleLetters := "ORAT 37"

  /** Every character of `c` is one of `SampleLetters`. */
  ghost predicate OverSampleLetters(c: string) {
    forall i :: 0 <= i < |c| ==> c[i] in SampleLetters
  }

  /** Each stop word has a character outside `SampleLetters`, so none occurs
      in a text made of those characters alone. */
  lemma NoStopWordOverSample(c: string)
    requires OverSampleLetters(c)
    ensures StopWordsAbsent(c, 0, |StopWords|)
  {
    NoStopWordOverSample0(c);
    NoStopWordOverSample1(c);
    NoStopWordOverSample2(c);
  }

  lemma NoStopWordOverSample0(c: string)
    requires OverSampleLetters(c)
    ensures StopWordsAbsent(c, 0, 6)
  {
    AbsentChar(c, "EF", 0);
    AbsentChar(c, "ZONA", 0);
    AbsentChar(c, "FAO", 0);
    AbsentChar(c, "PESCATO", 0);
    AbsentChar(c, "ALLEVATO", 1);
    AbsentChar(c, "ATTREZZI", 4);
  }

  lemma NoStopWordOverSample1(c: string)
    requires OverSampleLetters(c)
    ensures StopWordsAbsent(c, 6, 12)
  {
    AbsentChar(c, "FRANCIA", 0);
    AbsentChar(c, "GRECIA", 0);
    AbsentChar(c, "SPAGNA", 0);
    AbsentChar(c, "ITALIA", 0);
    AbsentChar(c, "MAROCCO", 0);
    AbsentChar(c, "TUNISIA", 1);
  }

  lemma NoStopWordOverSample2(c: string)
    requires OverSampleLetters(c)
    ensures StopWordsAbsent(c, 12, 18)
  {
    AbsentChar(c, "SCIABICHE", 0);
    AbsentChar(c, "RETI", 1);
    AbsentChar(c, "AMI", 1);
    AbsentChar(c, "VOLANTE", 0);
    AbsentChar(c, "N.", 0);
    AbsentChar(c, "N\U{B0}", 0);
  }

  lemma OrataNoSizeGrade()
    ensures BeforeFirst("ORATA 37ZONA", SizeGradeAt) == "ORATA 37ZONA"
  {
    var t := "ORATA 37ZONA";
    assert forall k: nat :: !SizeGradeAt(t, k);
  }

  lemma OrataNoAreaNumber()
    ensures BeforeFirst("ORATA 37ZONA", AreaNumberAt) == "ORATA 37ZONA"
  {
    var t := "ORATA 37ZONA";
    assert forall k: nat :: !AreaNumberAt(t, k);
  }

  lemma OrataFront()
    ensures BeforeFirst(BeforeFirst(Strip(Upper("ORATA 37ZONA")), SizeGradeAt), AreaNumberAt) == "ORATA 37ZONA"
  {
    var t := "ORATA 37ZONA";
    assert Upper(t) == t;
    StripStripped(t);
    OrataNoSizeGrade();
    OrataNoAreaNumber();
  }

  lemma OrataCutZona()
    ensures CutBefore("ORATA 37ZONA", "ZONA") == "ORATA 37"
  {
    var t := "ORATA 37ZONA";
    assert OccursAt(t, "ZONA", 8);
    var c := CutBefore(t, "ZONA");
    assert |c| == 8 by {
      if |c| != 8 {
        assert OccursAt(t, "ZONA", |c|);
        OccursAtHead(t, "ZONA", |c|);
      }
    }
  }

  lemma OrataCut()
    ensures CutAtStopWords("ORATA 37ZONA", StopWords) == "ORATA 37"
  {
    OrataCutFirstWord();
    OrataCutRest();
  }

  /** "EF" does not occur, so it cuts nothing. */
  lemma OrataCutFirstWord()
    ensures forall w :: w in StopWords[1..] ==> w != []
    ensures CutAtStopWords("ORATA 37ZONA", StopWords) == CutAtStopWords("ORATA 37ZONA", StopWords[1..])
  {
    var t := "ORATA 37ZONA";
    StopWordsNonEmpty();
    assert forall w :: w in StopWords[1..] ==> w in StopWords;
    AbsentChar(t, "EF", 0);
    assert CutBefore(t, "EF") == t;
  }

  /** "ZONA" cuts, and nothing after it occurs in what is left. */
  lemma OrataCutRest()
    ensures forall w :: w in StopWords[1..] ==> w != []
    ensures CutAtStopWords("ORATA 37ZONA", StopWords[1..]) == "ORATA 37"
  {
    var t := "ORATA 37ZONA";
    var c := "ORATA 37";
    StopWordsNonEmpty();
    assert forall w :: w in StopWords[1..] ==> w in StopWords;
    OrataCutZona();
    NoStopWordOverSample(c);
    CutAtStopWordsNoneOccurs(c, StopWords[2..]);
    assert StopWords[1..][1..] == StopWords[2..];
  }

  lemma OrataBack()
    ensures Strip(DropTrailingPunct("ORATA 37")) == "ORATA 37"
  {
    var c := "ORATA 37";
    assert EndAnchor(c) == 8;
    assert RunStart(c, 8, IsTrailingPunct) == 8;
    StripStripped(c);
  }


  lemma OrataSecondFront()
    ensures BeforeFirst(BeforeFirst(Strip(Upper("ORATA 37")), SizeGradeAt), AreaNumberAt) == "ORATA "
  {
    var t := "ORATA 37";
    assert Upper(t) == t;
    StripStripped(t);
    OrataSecondNoSizeGrade();
    OrataSecondAreaNumber();
  }

  lemma OrataSecondNoSizeGrade()
    ensures BeforeFirst("ORATA 37", SizeGradeAt) == "ORATA 37"
  {
    assert forall k: nat :: !SizeGradeAt("ORATA 37", k);
  }

  lemma OrataSecondAreaNumber()
    ensures BeforeFirst("ORATA 37", AreaNumberAt) == "ORATA "
  {
    var t := "ORATA 37";
    assert AreaNumberAt(t, 6);
    assert forall k: nat :: k < 6 ==> !AreaNumberAt(t, k);
    var r := BeforeFirst(t, AreaNumberAt);
    assert |r| == 6;
  }

  lemma OrataSecondBack()
    ensures Strip(DropTrailingPunct("ORATA ")) == "ORATA"
  {
    var c := "ORATA ";
    assert DropTrailingPunct(c) == c by {
      assert EndAnchor(c) == 6;
      assert RunStart(c, 6, IsTrailingPunct) == 6;
    }
    assert StrippedAt(c, 0, 5);
    StripOfStrippedAt(c, 0, 5);
  }


  /** Cleaning is not idempotent: a stop word can hide an area number, which
      the next pass then cuts. */
  lemma CleaningNotIdempotent()
    ensures Cleaned("ORATA 37ZONA") == "ORATA 37"
    ensures Cleaned(Cleaned("ORATA 37ZONA")) == "ORATA"
  {
    OrataFirstPass();
    OrataSecondPass();
  }

  lemma OrataFirstPass()
    ensures Cleaned("ORATA 37ZONA") == "ORATA 37"
  {
    OrataFront();
    OrataCut();
    OrataBack();
  }

  lemma OrataSecondPass()
    ensures Cleaned("ORATA 37") == "ORATA"
  {
    OrataSecondFront();
    NoStopWordOverSample("ORATA ");
    CutAtStopWordsNoneOccurs("ORATA ", StopWords);
    OrataSecondBack();
  }
}
