/**
 splitSegments (internal/travelroutes/service.go): a text is cut at whole-word connectors, each
 match taking one non-letter on both sides with it, and the pieces are trimmed.

 A text is a sequence of code points. The Unicode tables behind \p{L}, white space and case folding
 are a parameter.
 */
module SegmentSplitter {
  import opened Selections
  import opened Wrappers

  /** What the standard library's tables say about code points. */
  datatype Tables = Tables(isLetter: char -> bool, isSpace: char -> bool, fold: char -> char)

  /** The alternatives of the pattern, the letters they are spelled with, and the tables. */
  datatype Pattern = Pattern(words: seq<string>, letters: set<char>, tables: Tables) {
    predicate IsLetter(c: char) { tables.isLetter(c) }
    predicate IsSpace(c: char) { tables.isSpace(c) }
    predicate Same(c: char, d: char) { tables.fold(c) == tables.fold(d) }
  }

  /** The alternatives in the order in which they are tried. */
  const CONNECTORS: seq<string> :=
    ["then", "and then", "after", "and", "потім", "та потім", "і потім", "та", "і"]

  const LETTERS: set<char> :=
    {'t', 'h', 'e', 'n', 'a', 'd', 'f', 'r', 'п', 'о', 'т', 'і', 'м', 'а'}

  function SegmentSplitPattern(tables: Tables): (al: Pattern) {
    Pattern(CONNECTORS, LETTERS, tables)
  }

  predicate Spelled(w: string, letters: set<char>) {
    w != "" && forall j | 0 <= j < |w| :: w[j] in letters || (w[j] == ' ' && j > 0)
  }

  predicate SingleWord(w: string, letters: set<char>) {
    w != "" && forall j | 0 <= j < |w| :: w[j] in letters
  }

  /** Alternative i is "j k", two alternatives of one word each. */
  predicate IsPhrase(words: seq<string>, letters: set<char>, i: nat, j: nat, k: nat) {
    && i < |words| && j < |words| && k < |words|
    && SingleWord(words[j], letters) && SingleWord(words[k], letters)
    && words[i] == words[j] + " " + words[k]
  }

  ghost predicate OneOrTwoWords(words: seq<string>, letters: set<char>, i: nat)
    requires i < |words|
  {
    SingleWord(words[i], letters) || exists j: nat, k: nat :: IsPhrase(words, letters, i, j, k)
  }

  /** Alternatives have one or two words, each an alternative itself, and no second word begins another. */
  ghost predicate ShortPhrases(words: seq<string>, letters: set<char>) {
    && (forall i: nat | i < |words| :: OneOrTwoWords(words, letters, i))
    && (forall i: nat, h: nat, j: nat, k: nat, l: nat ::
          !(IsPhrase(words, letters, i, j, k) && IsPhrase(words, letters, h, k, l)))
  }

  predicate NoPrefix(words: seq<string>, i: nat, j: nat)
    requires i < |words| && j < |words|
  {
    !(words[i] <= words[j])
  }

  /** What the proofs use of the alternatives. */
  ghost predicate GoodWords(words: seq<string>, letters: set<char>) {
    && (forall k | 0 <= k < |words| :: Spelled(words[k], letters))
    && (forall i: nat, j: nat | i < j < |words| :: NoPrefix(words, i, j))
    && ShortPhrases(words, letters)
  }

  predicate FoldsAmongLetters(t: Tables, x: char, c: char) {
    t.fold(x) == t.fold(c) ==> t.isLetter(x)
  }

  predicate FoldsApart(t: Tables, c: char, d: char) {
    t.fold(c) == t.fold(d) ==> c == d
  }

  ghost predicate BlankApart(t: Tables) {
    !t.isLetter(' ') && forall x | t.fold(x) == t.fold(' ') :: x == ' '
  }

  ghost predicate SpaceApart(t: Tables) {
    forall x | t.isSpace(x) :: !t.isLetter(x)
  }

  /** What the proofs use of the tables: folding keeps the letters apart, and among letters. */
  ghost predicate GoodTables(letters: set<char>, t: Tables) {
    && (forall x, c | c in letters :: FoldsAmongLetters(t, x, c))
    && (forall c, d | c in letters && d in letters :: FoldsApart(t, c, d))
    && ' ' !in letters && BlankApart(t) && SpaceApart(t)
  }

  ghost predicate IsPattern(al: Pattern) {
    GoodWords(al.words, al.letters) && GoodTables(al.letters, al.tables)
  }

  /** No alternative is a prefix of a later one: "and then" precedes "and", and so on. */
  lemma LongerFirst(i: nat, j: nat)
    requires i < j < |CONNECTORS|
    ensures NoPrefix(CONNECTORS, i, j)
  {
    var v, w := CONNECTORS[i], CONNECTORS[j];
    assert |v| > |w| || v[0] != w[0];
  }

  /** "and then", "та потім" and "і потім" are made of connectors of one word. */
  lemma PhrasesJoinPairs(i: nat)
    requires i < |CONNECTORS|
    ensures OneOrTwoWords(CONNECTORS, LETTERS, i)
  {
    if i == 1 {
      assert IsPhrase(CONNECTORS, LETTERS, 1, 3, 0);
    } else if i == 5 {
      assert IsPhrase(CONNECTORS, LETTERS, 5, 7, 4);
    } else if i == 6 {
      assert IsPhrase(CONNECTORS, LETTERS, 6, 8, 4);
    }
  }

  lemma PhraseParts(i: nat, j: nat, k: nat)
    requires IsPhrase(CONNECTORS, LETTERS, i, j, k)
    ensures CONNECTORS[j][0] in {'a', 'т', 'і'} && CONNECTORS[k][0] in {'t', 'п'}
  {
    var v, w := CONNECTORS[i], CONNECTORS[j];
    assert v[|w|] == ' ' && v[|w| + 1] == CONNECTORS[k][0] && v[0] == w[0];
    assert ' ' !in LETTERS;
  }

  lemma WordSpelled(k: nat)
    requires k < |CONNECTORS|
    ensures Spelled(CONNECTORS[k], LETTERS)
  {
  }

  lemma SplitPatternIsPattern(tables: Tables)
    requires GoodTables(LETTERS, tables)
    ensures IsPattern(SegmentSplitPattern(tables))
  {
    forall k | 0 <= k < |CONNECTORS|
      ensures Spelled(CONNECTORS[k], LETTERS)
    {
      WordSpelled(k);
    }
    forall i: nat, j: nat | i < j < |CONNECTORS|
      ensures NoPrefix(CONNECTORS, i, j)
    {
      LongerFirst(i, j);
    }
    forall i: nat | i < |CONNECTORS|
      ensures OneOrTwoWords(CONNECTORS, LETTERS, i)
    {
      PhrasesJoinPairs(i);
    }
    forall i: nat, h: nat, j: nat, k: nat, l: nat
      ensures !(IsPhrase(CONNECTORS, LETTERS, i, j, k) && IsPhrase(CONNECTORS, LETTERS, h, k, l))
    {
      if IsPhrase(CONNECTORS, LETTERS, i, j, k) && IsPhrase(CONNECTORS, LETTERS, h, k, l) {
        PhraseParts(i, j, k);
        PhraseParts(h, k, l);
      }
    }
  }

  /** Tables that tell all code points apart are good. */
  lemma PlainTables()
    ensures GoodTables(LETTERS, Tables(c => c !in {' ', '\n'}, c => c in {' ', '\n'}, c => c))
  {
  }

  /** Latin and Ukrainian capitals fold to their small letters. */
  function Lower(c: char): (d: char) {
    if 'A' <= c <= 'Z' || 'А' <= c <= 'Я' then c + ' '
    else if c == 'І' then 'і'
    else c
  }

  predicate IsAlphabetic(c: char) {
    'a' <= c <= 'z' || 'A' <= c <= 'Z' || 'А' <= c <= 'я' || c == 'І' || c == 'і'
  }

  const CASE_TABLES: Tables := Tables(IsAlphabetic, c => c in {' ', '\n'}, Lower)

  lemma SmallLetter(c: char)
    requires c in LETTERS
    ensures Lower(c) == c && IsAlphabetic(c)
  {
  }

  lemma LowerKeepsKind(x: char)
    ensures IsAlphabetic(Lower(x)) <==> IsAlphabetic(x)
    ensures Lower(x) == ' ' <==> x == ' '
  {
  }

  /** So are tables that fold capitals. */
  lemma CaseTablesAreGood()
    ensures GoodTables(LETTERS, CASE_TABLES)
    ensures CASE_TABLES.fold('A') == CASE_TABLES.fold('a') && CASE_TABLES.fold('І') == CASE_TABLES.fold('і')
  {
    forall x, c | c in LETTERS
      ensures FoldsAmongLetters(CASE_TABLES, x, c)
    {
      SmallLetter(c);
      LowerKeepsKind(x);
    }
    forall c, d | c in LETTERS && d in LETTERS
      ensures FoldsApart(CASE_TABLES, c, d)
    {
      SmallLetter(c);
      SmallLetter(d);
    }
    forall x
      ensures CASE_TABLES.fold(x) == CASE_TABLES.fold(' ') ==> x == ' '
    {
      LowerKeepsKind(x);
    }
  }

  // ----- the pattern as a relation -----

  predicate WordAt(al: Pattern, s: string, u: nat, w: string) {
    u + |w| <= |s| && forall j | 0 <= j < |w| :: al.Same(s[u + j], w[j])
  }

  /** (?:^|[^\p{L}]) matched from a to u. */
  predicate LeftBoundary(al: Pattern, s: string, a: nat, u: nat) {
    a == u == 0 || (u == a + 1 <= |s| && !al.IsLetter(s[a]))
  }

  /** (?:$|[^\p{L}]) matched from v to b. */
  predicate RightBoundary(al: Pattern, s: string, v: nat, b: nat) {
    v == b == |s| || (b == v + 1 <= |s| && !al.IsLetter(s[v]))
  }

  /** Alternative k and the right boundary match from u to b. */
  predicate Fits(al: Pattern, s: string, u: nat, k: nat, b: nat) {
    && k < |al.words|
    && WordAt(al, s, u, al.words[k])
    && RightBoundary(al, s, u + |al.words[k]|, b)
  }

  predicate MatchVia(al: Pattern, s: string, a: nat, b: nat, u: nat, k: nat) {
    LeftBoundary(al, s, a, u) && Fits(al, s, u, k, b)
  }

  /** The pattern matches s[a..b] in its place in s. */
  ghost predicate MatchAt(al: Pattern, s: string, a: nat, b: nat) {
    exists u: nat, k: nat :: MatchVia(al, s, a, b, u, k)
  }

  ghost predicate NoMatchIn(al: Pattern, s: string, lo: nat, hi: nat) {
    forall a: nat, b: nat | lo <= a < hi :: !MatchAt(al, s, a, b)
  }

  ghost predicate LongestMatch(al: Pattern, s: string, a: nat, b: nat) {
    MatchAt(al, s, a, b) && forall c: nat | MatchAt(al, s, a, c) :: c <= b
  }

  /**
   One of the nine connectors, in any case, stands at u between the start of the text or a non-letter at
   a and the end of the text or a non-letter; b is behind all of that.
   */
  predicate StandsAt(t: Tables, s: string, a: nat, b: nat, u: nat, w: string) {
    && w in ["then", "and then", "after", "and", "потім", "та потім", "і потім", "та", "і"]
    && (u == a == 0 || (u == a + 1 <= |s| && !t.isLetter(s[a])))
    && u + |w| <= |s| && (forall j | 0 <= j < |w| :: t.fold(s[u + j]) == t.fold(w[j]))
    && if u + |w| == |s| then b == |s| else b == u + |w| + 1 && !t.isLetter(s[u + |w|])
  }

  lemma WordAtSpelled(al: Pattern, s: string, u: nat, w: string)
    ensures WordAt(al, s, u, w) <==>
            u + |w| <= |s| && forall j | 0 <= j < |w| :: al.tables.fold(s[u + j]) == al.tables.fold(w[j])
  {
    if WordAt(al, s, u, w) {
      forall j | 0 <= j < |w|
        ensures al.tables.fold(s[u + j]) == al.tables.fold(w[j])
      {
        assert al.Same(s[u + j], w[j]);
      }
    }
  }

  lemma MatchStands(t: Tables, s: string, a: nat, b: nat, u: nat, k: nat)
    requires MatchVia(SegmentSplitPattern(t), s, a, b, u, k)
    ensures StandsAt(t, s, a, b, u, CONNECTORS[k])
  {
    WordAtSpelled(SegmentSplitPattern(t), s, u, CONNECTORS[k]);
    assert CONNECTORS[k] in CONNECTORS;
  }

  lemma StandsMatches(t: Tables, s: string, a: nat, b: nat, u: nat, w: string)
    requires StandsAt(t, s, a, b, u, w)
    ensures MatchAt(SegmentSplitPattern(t), s, a, b)
  {
    var al := SegmentSplitPattern(t);
    assert w in CONNECTORS;
    var k: nat :| k < |CONNECTORS| && CONNECTORS[k] == w;
    WordAtSpelled(al, s, u, w);
    assert MatchVia(al, s, a, b, u, k);
  }

  /** The pattern matches exactly such places, and takes the non-letters on both sides with it. */
  lemma MatchSpelled(t: Tables, s: string, a: nat, b: nat)
    ensures MatchAt(SegmentSplitPattern(t), s, a, b) <==> exists u: nat, w: string :: StandsAt(t, s, a, b, u, w)
  {
    var al := SegmentSplitPattern(t);
    if MatchAt(al, s, a, b) {
      var u: nat, k: nat :| MatchVia(al, s, a, b, u, k);
      MatchStands(t, s, a, b, u, k);
    }
    if u: nat, w: string :| StandsAt(t, s, a, b, u, w) {
      StandsMatches(t, s, a, b, u, w);
    }
  }

  /** A connector in capitals is matched. */
  lemma CapitalsExample()
    ensures MatchAt(SegmentSplitPattern(CASE_TABLES), "museum AND park", 6, 11)
  {
    var s := "museum AND park";
    assert s[6] == ' ' && s[7] == 'A' && s[8] == 'N' && s[9] == 'D' && s[10] == ' ';
    assert StandsAt(CASE_TABLES, s, 6, 11, 7, "and");
    StandsMatches(CASE_TABLES, s, 6, 11, 7, "and");
  }

  // ----- the matcher: first alternative that fits -----

  function Ending(al: Pattern, s: string, v: nat): (b: Option<nat>)
    requires v <= |s|
  {
    if v == |s| then Some(v) else if !al.IsLetter(s[v]) then Some(v + 1) else None
  }

  function FirstAlternative(al: Pattern, s: string, u: nat, k: nat): (b: Option<nat>)
    requires k <= |al.words|
    decreases |al.words| - k
  {
    if k == |al.words| then None
    else if WordAt(al, s, u, al.words[k]) && Ending(al, s, u + |al.words[k]|).Some?
    then Ending(al, s, u + |al.words[k]|)
    else FirstAlternative(al, s, u, k + 1)
  }

  /** The end of the match that starts at a, if there is one: ^ is tried before a non-letter. */
  function MatchFrom(al: Pattern, s: string, a: nat): (b: Option<nat>)
    requires a <= |s|
  {
    if a == 0 && FirstAlternative(al, s, 0, 0).Some? then FirstAlternative(al, s, 0, 0)
    else if a < |s| && !al.IsLetter(s[a]) then FirstAlternative(al, s, a + 1, 0)
    else None
  }

  /** Two alternatives that fit at one place agree letter by letter. */
  lemma SameLetters(al: Pattern, s: string, u: nat, v: string, w: string)
    requires IsPattern(al) && Spelled(v, al.letters) && Spelled(w, al.letters) && |v| <= |w|
    requires WordAt(al, s, u, v) && WordAt(al, s, u, w)
    ensures v <= w
  {
    forall x: nat | x < |v|
      ensures v[x] == w[x]
    {
      assert al.Same(s[u + x], v[x]) && al.Same(s[u + x], w[x]) && FoldsApart(al.tables, v[x], w[x]);
      if v[x] == ' ' || w[x] == ' ' {
        assert s[u + x] == ' ';
      }
    }
  }

  lemma {:induction false} FirstAlternativeIsLongest(al: Pattern, s: string, u: nat, k: nat)
    requires IsPattern(al) && k <= |al.words|
    ensures var r := FirstAlternative(al, s, u, k); r.Some? ==> exists i: nat :: Fits(al, s, u, i, r.value)
    ensures forall j: nat, c: nat | k <= j && Fits(al, s, u, j, c) ::
              FirstAlternative(al, s, u, k).Some? && c <= FirstAlternative(al, s, u, k).value
    decreases |al.words| - k
  {
    if k < |al.words| {
      var w := al.words[k];
      if WordAt(al, s, u, w) && Ending(al, s, u + |w|).Some? {
        var b := Ending(al, s, u + |w|).value;
        assert Fits(al, s, u, k, b);
        forall j: nat, c: nat | k <= j && Fits(al, s, u, j, c)
          ensures c <= b
        {
          if |w| < |al.words[j]| {
            assert NoPrefix(al.words, k, j);
            SameLetters(al, s, u, w, al.words[j]);
          }
        }
      } else {
        FirstAlternativeIsLongest(al, s, u, k + 1);
      }
    }
  }

  /** A connector starts with a letter, so at most one of the two left boundaries can lead to it. */
  lemma StartIsLetter(al: Pattern, s: string, u: nat, k: nat)
    requires IsPattern(al) && k < |al.words| && WordAt(al, s, u, al.words[k])
    ensures u < |s| && al.IsLetter(s[u])
  {
    assert Spelled(al.words[k], al.letters);
    assert al.Same(s[u + 0], al.words[k][0]) && FoldsAmongLetters(al.tables, s[u], al.words[k][0]);
  }

  /** Taking the first alternative that fits takes the longest match, at every place of every text. */
  lemma FirstIsLongest(al: Pattern, s: string, a: nat)
    requires IsPattern(al) && a <= |s|
    ensures MatchFrom(al, s, a).Some? ==> LongestMatch(al, s, a, MatchFrom(al, s, a).value)
    ensures MatchFrom(al, s, a).None? ==> forall b: nat :: !MatchAt(al, s, a, b)
  {
    var r := MatchFrom(al, s, a);
    FirstAlternativeIsLongest(al, s, 0, 0);
    FirstAlternativeIsLongest(al, s, a + 1, 0);
    if a == 0 && FirstAlternative(al, s, 0, 0).Some? {
      var i: nat :| Fits(al, s, 0, i, FirstAlternative(al, s, 0, 0).value);
      StartIsLetter(al, s, 0, i);
    }
    forall b: nat | MatchAt(al, s, a, b)
      ensures r.Some? && b <= r.value
    {
      var u: nat, k: nat :| MatchVia(al, s, a, b, u, k);
      StartIsLetter(al, s, u, k);
    }
    if r.Some? {
      var u: nat := if a == 0 && FirstAlternative(al, s, 0, 0).Some? then 0 else a + 1;
      var k: nat :| Fits(al, s, u, k, r.value);
      assert MatchVia(al, s, a, r.value, u, k);
    }
  }

  predicate NonemptyWords(al: Pattern) {
    forall k | 0 <= k < |al.words| :: al.words[k] != ""
  }

  lemma PatternNonempty(al: Pattern)
    requires IsPattern(al)
    ensures NonemptyWords(al)
  {
    assert forall k | 0 <= k < |al.words| :: Spelled(al.words[k], al.letters);
  }

  lemma MatchIsNonempty(al: Pattern, s: string, a: nat, b: nat)
    requires NonemptyWords(al) && MatchAt(al, s, a, b)
    ensures a < b <= |s|
  {
    var u: nat, k: nat :| MatchVia(al, s, a, b, u, k);
    assert al.words[k] != "";
  }

  // ----- cutting a text -----

  type Cuts = seq<(nat, nat)>

  /** Where the i-th piece begins. */
  function EndOf(cuts: Cuts, i: nat): (e: nat)
    requires i <= |cuts|
  {
    if i == 0 then 0 else cuts[i - 1].1
  }

  /** Each cut is the first match at or after the end of the one before, as long as it can be. */
  ghost predicate GoodCut(al: Pattern, s: string, from: nat, cut: (nat, nat)) {
    && from <= cut.0
    && LongestMatch(al, s, cut.0, cut.1)
    && NoMatchIn(al, s, from, cut.0)
  }

  ghost predicate CutAt(al: Pattern, s: string, cuts: Cuts, i: nat)
    requires i < |cuts|
  {
    GoodCut(al, s, EndOf(cuts, i), cuts[i])
  }

  ghost predicate AreCuts(al: Pattern, s: string, cuts: Cuts) {
    forall i | 0 <= i < |cuts| :: CutAt(al, s, cuts, i)
  }

  ghost predicate IsCutting(al: Pattern, s: string, cuts: Cuts) {
    AreCuts(al, s, cuts) && NoMatchIn(al, s, EndOf(cuts, |cuts|), |s| + 1)
  }

  lemma CutsInRange(al: Pattern, s: string, cuts: Cuts, i: nat)
    requires NonemptyWords(al) && AreCuts(al, s, cuts) && i < |cuts|
    ensures EndOf(cuts, i) <= cuts[i].0 < cuts[i].1 == EndOf(cuts, i + 1) <= |s|
  {
    assert CutAt(al, s, cuts, i);
    MatchIsNonempty(al, s, cuts[i].0, cuts[i].1);
  }

  lemma CutIsMatch(al: Pattern, s: string, cuts: Cuts, i: nat)
    requires NonemptyWords(al) && AreCuts(al, s, cuts) && i < |cuts|
    ensures !NoMatchIn(al, s, EndOf(cuts, i), |s| + 1)
  {
    assert CutAt(al, s, cuts, i);
    CutsInRange(al, s, cuts, i);
    assert MatchAt(al, s, cuts[i].0, cuts[i].1);
  }

  lemma GoodCutUnique(al: Pattern, s: string, from: nat, c: (nat, nat), d: (nat, nat))
    requires GoodCut(al, s, from, c) && GoodCut(al, s, from, d)
    ensures c == d
  {
    assert MatchAt(al, s, c.0, c.1) && MatchAt(al, s, d.0, d.1);
    assert c.0 == d.0;
  }

  lemma {:induction false} CutsAgree(al: Pattern, s: string, a: Cuts, b: Cuts, i: nat)
    requires AreCuts(al, s, a) && AreCuts(al, s, b) && i < |a| && i < |b|
    ensures a[i] == b[i]
  {
    if i > 0 {
      CutsAgree(al, s, a, b, i - 1);
    }
    assert CutAt(al, s, a, i) && CutAt(al, s, b, i);
    GoodCutUnique(al, s, EndOf(a, i), a[i], b[i]);
  }

  /** A text has one cutting: it does not depend on how the matcher searches. */
  lemma CuttingUnique(al: Pattern, s: string, a: Cuts, b: Cuts)
    requires NonemptyWords(al) && IsCutting(al, s, a) && IsCutting(al, s, b)
    ensures a == b
  {
    var n := if |a| <= |b| then |a| else |b|;
    forall i: nat | i < n
      ensures a[i] == b[i]
    {
      CutsAgree(al, s, a, b, i);
    }
    if n < |a| {
      CutIsMatch(al, s, a, n);
    } else if n < |b| {
      CutIsMatch(al, s, b, n);
    }
  }

  /** Two texts that differ in letter case at most. */
  predicate SameButCase(t: Tables, s: string, r: string) {
    && |s| == |r|
    && forall i | 0 <= i < |s| :: t.fold(s[i]) == t.fold(r[i]) && t.isLetter(s[i]) == t.isLetter(r[i])
  }

  lemma CaseKeepsMatch(al: Pattern, s: string, r: string, a: nat, b: nat)
    requires SameButCase(al.tables, s, r) && MatchAt(al, s, a, b)
    ensures MatchAt(al, r, a, b)
  {
    var u: nat, k: nat :| MatchVia(al, s, a, b, u, k);
    var w := al.words[k];
    forall j | 0 <= j < |w|
      ensures al.Same(r[u + j], w[j])
    {
      assert al.Same(s[u + j], w[j]);
    }
    assert MatchVia(al, r, a, b, u, k);
  }

  lemma CaseKeepsCuts(al: Pattern, s: string, r: string, cuts: Cuts)
    requires SameButCase(al.tables, s, r) && IsCutting(al, s, cuts)
    ensures IsCutting(al, r, cuts)
  {
    forall a: nat, b: nat
      ensures MatchAt(al, s, a, b) <==> MatchAt(al, r, a, b)
    {
      if MatchAt(al, s, a, b) { CaseKeepsMatch(al, s, r, a, b); }
      if MatchAt(al, r, a, b) { CaseKeepsMatch(al, r, s, a, b); }
    }
    forall i | 0 <= i < |cuts|
      ensures CutAt(al, r, cuts, i)
    {
      assert CutAt(al, s, cuts, i);
    }
  }

  /** Letter case does not matter: two such texts are cut at the same places. */
  lemma CaseInsensitive(al: Pattern, s: string, r: string, cuts: Cuts)
    requires SameButCase(al.tables, s, r)
    ensures IsCutting(al, s, cuts) <==> IsCutting(al, r, cuts)
  {
    if IsCutting(al, s, cuts) { CaseKeepsCuts(al, s, r, cuts); }
    if IsCutting(al, r, cuts) { CaseKeepsCuts(al, r, s, cuts); }
  }

  /** The i-th raw piece lies between the cuts i - 1 and i. */
  function PieceEnd(s: string, cuts: Cuts, i: nat): (q: nat)
    requires i <= |cuts|
  {
    if i < |cuts| then cuts[i].0 else |s|
  }

  ghost predicate HasPiece(s: string, cuts: Cuts, i: nat) {
    i <= |cuts| && EndOf(cuts, i) <= PieceEnd(s, cuts, i) <= |s|
  }

  function Piece(s: string, cuts: Cuts, i: nat): (t: string)
    requires i <= |cuts| && EndOf(cuts, i) <= PieceEnd(s, cuts, i) <= |s|
  {
    s[EndOf(cuts, i)..PieceEnd(s, cuts, i)]
  }

  lemma PieceExists(al: Pattern, s: string, cuts: Cuts, i: nat)
    requires NonemptyWords(al) && AreCuts(al, s, cuts) && i <= |cuts|
    ensures HasPiece(s, cuts, i)
  {
    if i < |cuts| { CutsInRange(al, s, cuts, i); }
    if i > 0 { CutsInRange(al, s, cuts, i - 1); }
  }

  ghost predicate FirstPieces(s: string, cuts: Cuts, pieces: seq<string>) {
    forall i: nat | i < |pieces| :: HasPiece(s, cuts, i) && pieces[i] == Piece(s, cuts, i)
  }

  ghost predicate ArePieces(s: string, cuts: Cuts, pieces: seq<string>) {
    |pieces| == |cuts| + 1 && FirstPieces(s, cuts, pieces)
  }

  ghost predicate AreSeparators(s: string, cuts: Cuts, seps: seq<string>) {
    && |seps| == |cuts|
    && forall i | 0 <= i < |cuts| :: cuts[i].0 < cuts[i].1 <= |s| && seps[i] == s[cuts[i].0..cuts[i].1]
  }

  /** Pieces and separators laid out in turn, up to the i-th piece. */
  function Woven(pieces: seq<string>, seps: seq<string>, i: nat): (t: string)
    requires i < |pieces| && i <= |seps|
  {
    if i == 0 then pieces[0] else Woven(pieces, seps, i - 1) + seps[i - 1] + pieces[i]
  }

  lemma Separators(al: Pattern, s: string, cuts: Cuts) returns (seps: seq<string>)
    requires NonemptyWords(al) && AreCuts(al, s, cuts)
    ensures AreSeparators(s, cuts, seps)
  {
    forall i | 0 <= i < |cuts|
      ensures cuts[i].0 < cuts[i].1 <= |s|
    {
      CutsInRange(al, s, cuts, i);
    }
    seps := seq(|cuts|, i requires 0 <= i < |cuts| && cuts[i].0 < cuts[i].1 <= |s| => s[cuts[i].0..cuts[i].1]);
  }

  lemma Glue(s: string, a: nat, b: nat, c: nat)
    requires a <= b <= c <= |s|
    ensures s[..a] + s[a..b] + s[b..c] == s[..c]
  {
  }

  lemma {:induction false} WovenPrefix(
    al: Pattern, s: string, cuts: Cuts, pieces: seq<string>, seps: seq<string>, i: nat)
    requires NonemptyWords(al) && AreCuts(al, s, cuts) && ArePieces(s, cuts, pieces) && AreSeparators(s, cuts, seps)
    requires i <= |cuts|
    ensures PieceEnd(s, cuts, i) <= |s|
    ensures Woven(pieces, seps, i) == s[..PieceEnd(s, cuts, i)]
  {
    PieceExists(al, s, cuts, i);
    assert HasPiece(s, cuts, i) && pieces[i] == Piece(s, cuts, i);
    if i > 0 {
      WovenPrefix(al, s, cuts, pieces, seps, i - 1);
      CutsInRange(al, s, cuts, i - 1);
      Glue(s, cuts[i - 1].0, cuts[i - 1].1, PieceEnd(s, cuts, i));
    }
  }

  /** Nothing is lost: the pieces and the matched separators between them give the text back. */
  lemma {:induction false} NothingLost(al: Pattern, s: string, cuts: Cuts, pieces: seq<string>)
    returns (seps: seq<string>)
    requires NonemptyWords(al) && IsCutting(al, s, cuts) && ArePieces(s, cuts, pieces)
    ensures AreSeparators(s, cuts, seps) && Woven(pieces, seps, |cuts|) == s
  {
    seps := Separators(al, s, cuts);
    WovenPrefix(al, s, cuts, pieces, seps, |cuts|);
    assert s[..|s|] == s;
  }

  // ----- the scanner -----

  /** Tries every start from `from` on. */
  method FindMatch(al: Pattern, s: string, from: nat) returns (r: Option<(nat, nat)>)
    requires IsPattern(al) && from <= |s|
    ensures r.Some? ==> GoodCut(al, s, from, r.value)
    ensures r.None? ==> NoMatchIn(al, s, from, |s| + 1)
  {
    for a := from to |s| + 1
      invariant NoMatchIn(al, s, from, a)
    {
      FirstIsLongest(al, s, a);
      var b := MatchFrom(al, s, a);
      if b.Some? {
        return Some((a, b.value));
      }
    }
    r := None;
  }

  lemma CutsExtend(al: Pattern, s: string, cuts: Cuts, cut: (nat, nat))
    requires AreCuts(al, s, cuts) && GoodCut(al, s, EndOf(cuts, |cuts|), cut)
    ensures AreCuts(al, s, cuts + [cut])
  {
    var more := cuts + [cut];
    forall i | 0 <= i < |more|
      ensures CutAt(al, s, more, i)
    {
      assert EndOf(more, i) == EndOf(cuts, i);
      if i < |cuts| {
        assert CutAt(al, s, cuts, i);
      }
    }
  }

  lemma PiecesExtend(s: string, cuts: Cuts, pieces: seq<string>, cut: (nat, nat))
    requires |pieces| == |cuts| && FirstPieces(s, cuts, pieces) && EndOf(cuts, |cuts|) <= cut.0 <= |s|
    ensures FirstPieces(s, cuts + [cut], pieces + [s[EndOf(cuts, |cuts|)..cut.0]])
  {
    var more, longer := cuts + [cut], pieces + [s[EndOf(cuts, |cuts|)..cut.0]];
    forall i: nat | i < |longer|
      ensures HasPiece(s, more, i) && longer[i] == Piece(s, more, i)
    {
      assert EndOf(more, i) == EndOf(cuts, i);
      if i < |cuts| {
        assert HasPiece(s, cuts, i) && pieces[i] == Piece(s, cuts, i);
      }
    }
  }

  lemma LastPiece(s: string, cuts: Cuts, pieces: seq<string>)
    requires |pieces| == |cuts| && FirstPieces(s, cuts, pieces) && EndOf(cuts, |cuts|) <= |s|
    ensures ArePieces(s, cuts, pieces + [s[EndOf(cuts, |cuts|)..]])
  {
    var longer := pieces + [s[EndOf(cuts, |cuts|)..]];
    forall i: nat | i < |longer|
      ensures HasPiece(s, cuts, i) && longer[i] == Piece(s, cuts, i)
    {
      if i < |cuts| {
        assert HasPiece(s, cuts, i) && pieces[i] == Piece(s, cuts, i);
      }
    }
  }

  /** All non-overlapping matches from left to right, and the text between them. */
  method Split(al: Pattern, s: string) returns (pieces: seq<string>)
    requires IsPattern(al)
    ensures exists cuts :: IsCutting(al, s, cuts) && ArePieces(s, cuts, pieces)
  {
    PatternNonempty(al);
    ghost var cuts: Cuts := [];
    pieces := [];
    var beg := 0;
    var m := FindMatch(al, s, 0);
    while m.Some?
      invariant AreCuts(al, s, cuts) && beg == EndOf(cuts, |cuts|) <= |s|
      invariant |pieces| == |cuts| && FirstPieces(s, cuts, pieces)
      invariant m.Some? ==> GoodCut(al, s, beg, m.value)
      invariant m.None? ==> NoMatchIn(al, s, beg, |s| + 1)
      decreases |s| - beg, m.Some?
    {
      var cut := m.value;
      MatchIsNonempty(al, s, cut.0, cut.1);
      CutsExtend(al, s, cuts, cut);
      PiecesExtend(s, cuts, pieces, cut);
      pieces := pieces + [s[beg..cut.0]];
      cuts := cuts + [cut];
      beg := cut.1;
      m := FindMatch(al, s, beg);
    }
    LastPiece(s, cuts, pieces);
    pieces := pieces + [s[beg..]];
  }

  // ----- trimming -----

  function TrimLeft(al: Pattern, t: string): (r: string) {
    if t != [] && al.IsSpace(t[0]) then TrimLeft(al, t[1..]) else t
  }

  function TrimRight(al: Pattern, t: string): (r: string) {
    if t != [] && al.IsSpace(t[|t| - 1]) then TrimRight(al, t[..|t| - 1]) else t
  }

  function TrimSpace(al: Pattern, t: string): (r: string) {
    TrimRight(al, TrimLeft(al, t))
  }

  predicate AllSpace(al: Pattern, t: string) {
    forall i | 0 <= i < |t| :: al.tables.isSpace(t[i])
  }

  /** t without the space around it: r lies at position l of t. */
  predicate IsTrimmed(al: Pattern, t: string, r: string, l: nat) {
    && l + |r| <= |t| && r == t[l..l + |r|]
    && AllSpace(al, t[..l]) && AllSpace(al, t[l + |r|..])
    && (r != [] ==> !al.tables.isSpace(r[0]) && !al.tables.isSpace(r[|r| - 1]))
  }

  lemma {:induction false} TrimLeftShape(al: Pattern, t: string) returns (l: nat)
    ensures l <= |t| && TrimLeft(al, t) == t[l..] && AllSpace(al, t[..l])
    ensures l < |t| ==> !al.IsSpace(t[l])
  {
    if t != [] && al.IsSpace(t[0]) {
      l := TrimLeftShape(al, t[1..]);
      assert t[..l + 1] == [t[0]] + t[1..][..l];
      l := l + 1;
    } else {
      l := 0;
    }
  }

  lemma {:induction false} TrimRightShape(al: Pattern, t: string) returns (n: nat)
    ensures n <= |t| && TrimRight(al, t) == t[..n] && AllSpace(al, t[n..])
    ensures n > 0 ==> !al.IsSpace(t[n - 1])
  {
    if t != [] && al.IsSpace(t[|t| - 1]) {
      var front := t[..|t| - 1];
      n := TrimRightShape(al, front);
      assert t[..n] == front[..n] && t[n..] == front[n..] + [t[|t| - 1]];
    } else {
      n := |t|;
    }
  }

  lemma TrimSpaceShape(al: Pattern, t: string) returns (l: nat)
    ensures IsTrimmed(al, t, TrimSpace(al, t), l)
  {
    l := TrimLeftShape(al, t);
    var n := TrimRightShape(al, t[l..]);
    assert t[l..][..n] == t[l..l + n] && t[l..][n..] == t[l + n..];
  }

  /** The nonempty trimmed pieces in order. */
  function Segments(al: Pattern, pieces: seq<string>): (r: seq<string>) {
    if pieces == [] then []
    else
      var last := |pieces| - 1;
      var trimmed := TrimSpace(al, pieces[last]);
      Segments(al, pieces[..last]) + if trimmed != "" then [trimmed] else []
  }

  function Survives(al: Pattern): (keep: string -> bool) {
    piece => TrimSpace(al, piece) != ""
  }

  function Trimmed(al: Pattern, pieces: seq<string>, idx: seq<nat>): (r: seq<string>)
    requires forall i | i in idx :: i < |pieces|
  {
    seq(|idx|, j requires 0 <= j < |idx| => assert idx[j] in idx; TrimSpace(al, pieces[idx[j]]))
  }

  lemma {:induction false} SegmentsPrefix(al: Pattern, pieces: seq<string>, n: nat)
    requires n <= |pieces|
    ensures Segments(al, pieces[..n]) == Trimmed(al, pieces, Positions(pieces, n, Survives(al)))
  {
    if n > 0 {
      SegmentsPrefix(al, pieces, n - 1);
      assert pieces[..n][..n - 1] == pieces[..n - 1];
    }
  }

  /** The segments are the pieces with something left after trimming, each trimmed, in order. */
  lemma SegmentsExact(al: Pattern, pieces: seq<string>)
    ensures var idx := Positions(pieces, |pieces|, Survives(al));
            IsSelection(pieces, |pieces|, Survives(al), idx) && Segments(al, pieces) == Trimmed(al, pieces, idx)
  {
    SelectionExact(pieces, |pieces|, Survives(al));
    SegmentsPrefix(al, pieces, |pieces|);
    assert pieces[..|pieces|] == pieces;
  }

  /** The cutting of the input and the pieces between its matches give these segments. */
  ghost predicate AreSegmentsOf(
    al: Pattern, userInput: string, cuts: Cuts, pieces: seq<string>, segments: seq<string>)
  {
    IsCutting(al, userInput, cuts) && ArePieces(userInput, cuts, pieces) && segments == Segments(al, pieces)
  }

  // ----- connectors that survive -----

  /** Alternative k stands at t[u..] as a whole word of t. */
  predicate WholeWord(al: Pattern, t: string, u: nat, k: nat) {
    && k < |al.words| && al.words[k] != "" && WordAt(al, t, u, al.words[k])
    && (u == 0 || !al.IsLetter(t[u - 1]))
    && (u + |al.words[k]| == |t| || !al.IsLetter(t[u + |al.words[k]|]))
  }

  /** s[p..q] ends where the text ends or a non-letter follows. */
  predicate Region(al: Pattern, s: string, p: nat, q: nat) {
    p <= q <= |s| && (q == |s| || q == 0 || !al.IsLetter(s[q]))
  }

  lemma MatchBoundary(al: Pattern, s: string, a: nat, b: nat)
    requires MatchAt(al, s, a, b)
    ensures a == 0 || (a < |s| && !al.IsLetter(s[a]))
  {
    var u: nat, k: nat :| MatchVia(al, s, a, b, u, k);
  }

  /** The i-th piece is such a region, and no match starts in it. */
  lemma PieceRegion(al: Pattern, s: string, cuts: Cuts, i: nat)
    requires NonemptyWords(al) && IsCutting(al, s, cuts) && i <= |cuts|
    ensures HasPiece(s, cuts, i)
    ensures Region(al, s, EndOf(cuts, i), PieceEnd(s, cuts, i))
    ensures NoMatchIn(al, s, EndOf(cuts, i), PieceEnd(s, cuts, i))
    ensures EndOf(cuts, i) == 0 <==> i == 0
  {
    PieceExists(al, s, cuts, i);
    if i > 0 {
      CutsInRange(al, s, cuts, i - 1);
    }
    if i < |cuts| {
      assert CutAt(al, s, cuts, i);
      MatchBoundary(al, s, cuts[i].0, cuts[i].1);
    } else {
    }
  }

  /** A whole word of a region is one of the text, except perhaps for what stands before the region. */
  lemma RegionWord(al: Pattern, s: string, p: nat, q: nat, u: nat, k: nat)
    requires Region(al, s, p, q) && WholeWord(al, s[p..q], u, k)
    ensures WordAt(al, s, p + u, al.words[k])
    ensures var v := p + u + |al.words[k]|; v <= q && (v == |s| || !al.IsLetter(s[v]))
    ensures u > 0 ==> !al.IsLetter(s[p + u - 1])
  {
    var t, w := s[p..q], al.words[k];
    forall j | 0 <= j < |w|
      ensures al.Same(s[p + u + j], w[j])
    {
      assert t[u + j] == s[p + u + j];
    }
    assert u > 0 ==> t[u - 1] == s[p + u - 1];
    assert u + |w| < |t| ==> t[u + |w|] == s[p + u + |w|];
  }

  /** A whole word is matched together with the non-letter before it, or at the start of the text. */
  lemma WholeWordMatches(al: Pattern, s: string, x: nat, k: nat) returns (b: nat)
    requires WholeWord(al, s, x, k)
    ensures MatchAt(al, s, if x == 0 then 0 else x - 1, b)
  {
    var v := x + |al.words[k]|;
    b := if v == |s| then v else v + 1;
    assert Fits(al, s, x, k, b);
    assert MatchVia(al, s, if x == 0 then 0 else x - 1, b, x, k);
  }

  /** Without a match start, a region has whole words at its own start only, and not at that of the text. */
  lemma RegionSurvivor(al: Pattern, s: string, p: nat, q: nat, u: nat, k: nat)
    requires Region(al, s, p, q) && NoMatchIn(al, s, p, q) && WholeWord(al, s[p..q], u, k)
    ensures p > 0 && u == 0
  {
    RegionWord(al, s, p, q, u, k);
    if u > 0 || p == 0 {
      var b := WholeWordMatches(al, s, p + u, k);
    }
  }

  /** What follows position p begins with the one-word connector k. */
  predicate BeginsWith(al: Pattern, s: string, p: nat, k: nat) {
    && k < |al.words| && SingleWord(al.words[k], al.letters) && WordAt(al, s, p, al.words[k])
    && (p + |al.words[k]| == |s| || !al.IsLetter(s[p + |al.words[k]|]))
  }

  /** j is the alternative k or its first word. */
  ghost predicate FirstWordOf(words: seq<string>, letters: set<char>, j: nat, k: nat) {
    j < |words| && SingleWord(words[j], letters) && (j == k || exists l: nat :: IsPhrase(words, letters, k, j, l))
  }

  lemma RegionShows(al: Pattern, s: string, p: nat, q: nat, k: nat, j: nat)
    requires BlankApart(al.tables) && Region(al, s, p, q) && WholeWord(al, s[p..q], 0, k)
    requires FirstWordOf(al.words, al.letters, j, k)
    ensures BeginsWith(al, s, p, j)
  {
    RegionWord(al, s, p, q, 0, k);
    var w, v := al.words[j], al.words[k];
    forall x | 0 <= x < |w|
      ensures al.Same(s[p + x], w[x])
    {
      assert w[x] == v[x] && al.Same(s[p + x], v[x]);
    }
    if j != k {
      assert al.Same(s[p + |w|], v[|w|]);
    }
  }

  lemma RegionSurvives(al: Pattern, s: string, p: nat, q: nat, k: nat)
    requires GoodTables(al.letters, al.tables) && Region(al, s, p, q) && p > 0 && BeginsWith(al, s, p, k)
    ensures WholeWord(al, s[p..q], 0, k)
  {
    var t, w := s[p..q], al.words[k];
    forall x | p <= x < p + |w|
      ensures al.IsLetter(s[x])
    {
      assert al.Same(s[p + (x - p)], w[x - p]) && FoldsAmongLetters(al.tables, s[x], w[x - p]);
    }
    assert p + |w| <= q;
    forall j | 0 <= j < |w|
      ensures al.Same(t[j], w[j])
    {
      assert t[j] == s[p + j];
    }
    assert |w| < |t| ==> t[|w|] == s[p + |w|];
  }

  /** In a raw piece a connector can only be the first word, and not in the first piece. */
  lemma {:induction false} SurvivorIsFirstWord(al: Pattern, s: string, cuts: Cuts, i: nat, u: nat, k: nat)
    requires NonemptyWords(al) && IsCutting(al, s, cuts)
    requires HasPiece(s, cuts, i) && WholeWord(al, Piece(s, cuts, i), u, k)
    ensures i > 0 && u == 0
  {
    PieceRegion(al, s, cuts, i);
    RegionSurvivor(al, s, EndOf(cuts, i), PieceEnd(s, cuts, i), u, k);
  }

  ghost predicate HasConnector(al: Pattern, t: string) {
    exists u: nat, k: nat :: WholeWord(al, t, u, k)
  }

  ghost predicate ConnectorFollows(al: Pattern, s: string, p: nat) {
    exists k: nat :: BeginsWith(al, s, p, k)
  }

  lemma SurvivorShows(al: Pattern, s: string, cuts: Cuts, i: nat)
    requires IsPattern(al) && NonemptyWords(al) && IsCutting(al, s, cuts)
    requires HasPiece(s, cuts, i) && HasConnector(al, Piece(s, cuts, i))
    ensures i > 0 && ConnectorFollows(al, s, EndOf(cuts, i))
  {
    var u: nat, k: nat :| WholeWord(al, Piece(s, cuts, i), u, k);
    SurvivorIsFirstWord(al, s, cuts, i, u, k);
    PieceRegion(al, s, cuts, i);
    var j := k;
    if !SingleWord(al.words[k], al.letters) {
      assert OneOrTwoWords(al.words, al.letters, k);
      var first: nat, l: nat :| IsPhrase(al.words, al.letters, k, first, l);
      j := first;
    }
    assert FirstWordOf(al.words, al.letters, j, k);
    RegionShows(al, s, EndOf(cuts, i), PieceEnd(s, cuts, i), k, j);
  }

  lemma ConnectorSurvives(al: Pattern, s: string, cuts: Cuts, i: nat)
    requires IsPattern(al) && NonemptyWords(al) && IsCutting(al, s, cuts) && 0 < i <= |cuts|
    requires ConnectorFollows(al, s, EndOf(cuts, i))
    ensures HasPiece(s, cuts, i) && HasConnector(al, Piece(s, cuts, i))
  {
    PieceRegion(al, s, cuts, i);
    var k: nat :| BeginsWith(al, s, EndOf(cuts, i), k);
    RegionSurvives(al, s, EndOf(cuts, i), PieceEnd(s, cuts, i), k);
  }

  /**
   Which connectors are left: a piece contains one as a whole word exactly when it is not the first
   piece and the text right after the delimiter taken by the previous match begins with one.
   */
  lemma {:induction false} SurvivorIff(al: Pattern, s: string, cuts: Cuts, i: nat)
    requires IsPattern(al) && IsCutting(al, s, cuts) && i <= |cuts|
    ensures HasPiece(s, cuts, i)
    ensures HasConnector(al, Piece(s, cuts, i)) <==> i > 0 && ConnectorFollows(al, s, EndOf(cuts, i))
  {
    PatternNonempty(al);
    PieceExists(al, s, cuts, i);
    if HasConnector(al, Piece(s, cuts, i)) {
      SurvivorShows(al, s, cuts, i);
    }
    if i > 0 && ConnectorFollows(al, s, EndOf(cuts, i)) {
      ConnectorSurvives(al, s, cuts, i);
    }
  }

  // ----- connectors left in the segments -----

  lemma TrimKeepsPlace(al: Pattern, t: string, r: string, l: nat, u: nat, k: nat)
    requires SpaceApart(al.tables) && IsTrimmed(al, t, r, l) && WholeWord(al, r, u, k)
    ensures WholeWord(al, t, l + u, k)
  {
    var w := al.words[k];
    forall j | 0 <= j < |w|
      ensures al.Same(t[l + u + j], w[j])
    {
      assert t[l + u + j] == r[u + j];
    }
    assert l > 0 ==> t[..l][l - 1] == t[l - 1];
    assert l + |r| < |t| ==> t[l + |r|..][0] == t[l + |r|];
    assert u > 0 ==> t[l + u - 1] == r[u - 1];
    assert u + |w| < |r| ==> t[l + u + |w|] == r[u + |w|];
  }

  /** A connector in a trimmed segment is its first word, too. */
  lemma {:induction false} SegmentSurvivor(al: Pattern, s: string, cuts: Cuts, i: nat, u: nat, k: nat)
    requires NonemptyWords(al) && SpaceApart(al.tables) && IsCutting(al, s, cuts) && HasPiece(s, cuts, i)
    requires WholeWord(al, TrimSpace(al, Piece(s, cuts, i)), u, k)
    ensures i > 0 && u == 0
  {
    var t := Piece(s, cuts, i);
    var l := TrimSpaceShape(al, t);
    TrimKeepsPlace(al, t, TrimSpace(al, t), l, u, k);
    SurvivorIsFirstWord(al, s, cuts, i, l + u, k);
  }

  /** Only white space is trimmed away. */
  lemma OnlySpaceGoes(al: Pattern, t: string, r: string, l: nat, x: nat)
    requires IsTrimmed(al, t, r, l) && x < |t|
    ensures l <= x < l + |r| || al.tables.isSpace(t[x])
  {
    if x < l {
      assert t[..l][x] == t[x];
    } else if x >= l + |r| {
      assert t[l + |r|..][x - (l + |r|)] == t[x];
    }
  }

  /** The letters of a word stand on letters of the text. */
  lemma LettersOf(al: Pattern, s: string, u: nat, w: string)
    requires GoodTables(al.letters, al.tables) && SingleWord(w, al.letters) && WordAt(al, s, u, w)
    ensures forall x | u <= x < u + |w| :: al.IsLetter(s[x])
  {
    forall x | u <= x < u + |w|
      ensures al.IsLetter(s[x])
    {
      assert al.Same(s[u + (x - u)], w[x - u]) && FoldsAmongLetters(al.tables, s[x], w[x - u]);
    }
  }

  /** A connector at the start of a piece is not trimmed away. */
  lemma FirstWordKept(al: Pattern, t: string, k: nat)
    requires GoodTables(al.letters, al.tables) && WholeWord(al, t, 0, k) && SingleWord(al.words[k], al.letters)
    ensures WholeWord(al, TrimSpace(al, t), 0, k)
  {
    var r, w := TrimSpace(al, t), al.words[k];
    var l := TrimSpaceShape(al, t);
    LettersOf(al, t, 0, w);
    OnlySpaceGoes(al, t, r, l, 0);
    OnlySpaceGoes(al, t, r, l, |w| - 1);
    forall j | 0 <= j < |w|
      ensures al.Same(r[j], w[j])
    {
      assert r[j] == t[j];
    }
    assert |w| < |r| ==> r[|w|] == t[|w|];
  }

  /** Trimming neither brings a connector to a raw piece nor takes one away. */
  lemma {:induction false} TrimmedSurvivor(al: Pattern, s: string, cuts: Cuts, i: nat)
    requires IsPattern(al) && IsCutting(al, s, cuts) && HasPiece(s, cuts, i)
    ensures HasConnector(al, TrimSpace(al, Piece(s, cuts, i))) <==> HasConnector(al, Piece(s, cuts, i))
  {
    var t := Piece(s, cuts, i);
    if u: nat, k: nat :| WholeWord(al, TrimSpace(al, t), u, k) {
      var l := TrimSpaceShape(al, t);
      TrimKeepsPlace(al, t, TrimSpace(al, t), l, u, k);
    }
    if HasConnector(al, t) {
      SurvivorIff(al, s, cuts, i);
      PatternNonempty(al);
      PieceRegion(al, s, cuts, i);
      var k: nat :| BeginsWith(al, s, EndOf(cuts, i), k);
      RegionSurvives(al, s, EndOf(cuts, i), PieceEnd(s, cuts, i), k);
      FirstWordKept(al, t, k);
    }
  }

  predicate WordEnds(al: Pattern, s: string, e: nat) {
    e == |s| || (e < |s| && !al.IsLetter(s[e]))
  }

  lemma SingleWordsAgree(al: Pattern, s: string, u: nat, v: string, w: string)
    requires IsPattern(al) && SingleWord(v, al.letters) && SingleWord(w, al.letters)
    requires WordAt(al, s, u, v) && WordAt(al, s, u, w) && WordEnds(al, s, u + |v|) && WordEnds(al, s, u + |w|)
    ensures v == w
  {
    LettersOf(al, s, u, v);
    LettersOf(al, s, u, w);
    assert |v| == |w|;
    SameLetters(al, s, u, v, w);
  }

  /** The two words of a phrase stand one blank apart, */
  lemma PhraseSplit(al: Pattern, s: string, u: nat, i: nat, j: nat, k: nat)
    requires BlankApart(al.tables) && IsPhrase(al.words, al.letters, i, j, k) && WordAt(al, s, u, al.words[i])
    ensures WordAt(al, s, u, al.words[j]) && s[u + |al.words[j]|] == ' '
    ensures WordAt(al, s, u + |al.words[j]| + 1, al.words[k])
  {
    var v, w, joined := al.words[j], al.words[k], al.words[i];
    forall x | 0 <= x < |v|
      ensures al.Same(s[u + x], v[x])
    {
      assert joined[x] == v[x];
    }
    assert joined[|v|] == ' ' && al.Same(s[u + |v|], joined[|v|]);
    forall x | 0 <= x < |w|
      ensures al.Same(s[u + |v| + 1 + x], w[x])
    {
      assert joined[|v| + 1 + x] == w[x] && al.Same(s[u + (|v| + 1 + x)], joined[|v| + 1 + x]);
    }
  }

  /** ... and two words one blank apart make the phrase. */
  lemma PhraseJoin(al: Pattern, s: string, u: nat, i: nat, j: nat, k: nat)
    requires IsPhrase(al.words, al.letters, i, j, k)
    requires var mid := u + |al.words[j]|;
             WordAt(al, s, u, al.words[j]) && mid < |s| && s[mid] == ' ' && WordAt(al, s, mid + 1, al.words[k])
    ensures WordAt(al, s, u, al.words[i])
  {
    var v, w, joined := al.words[j], al.words[k], al.words[i];
    forall x | 0 <= x < |joined|
      ensures al.Same(s[u + x], joined[x])
    {
      if x > |v| {
        assert al.Same(s[u + |v| + 1 + (x - |v| - 1)], w[x - |v| - 1]);
      }
    }
  }

  /** Two one-word connectors stand one code point apart, and are not one connector of two words. */
  ghost predicate CrowdedAt(al: Pattern, s: string, u: nat, j: nat, k: nat) {
    && WholeWord(al, s, u, j) && SingleWord(al.words[j], al.letters)
    && WholeWord(al, s, u + |al.words[j]| + 1, k) && SingleWord(al.words[k], al.letters)
    && !(s[u + |al.words[j]|] == ' ' && exists i: nat :: IsPhrase(al.words, al.letters, i, j, k))
  }

  ghost predicate Crowded(al: Pattern, s: string) {
    exists u: nat, j: nat, k: nat :: CrowdedAt(al, s, u, j, k)
  }

  ghost predicate ConnectorLeft(al: Pattern, segments: seq<string>) {
    exists t :: t in segments && HasConnector(al, t)
  }

  /** A phrase matches further than its first word. */
  lemma LongerPhrase(al: Pattern, s: string, a: nat, b: nat, u: nat, j: nat, i: nat, k: nat) returns (c: nat)
    requires IsPhrase(al.words, al.letters, i, j, k) && MatchVia(al, s, a, b, u, j) && BeginsWith(al, s, b, k)
    requires b == u + |al.words[j]| + 1 && s[b - 1] == ' '
    ensures MatchAt(al, s, a, c) && c > b
  {
    PhraseJoin(al, s, u, i, j, k);
    var v := b + |al.words[k]|;
    c := if v == |s| then v else v + 1;
    assert Fits(al, s, u, i, c);
    assert MatchVia(al, s, a, c, u, i);
  }

  /** A match followed by a letter has consumed a delimiter, and its connector is a whole word. */
  lemma DelimiterTaken(al: Pattern, s: string, a: nat, b: nat, u: nat, m: nat)
    requires MatchVia(al, s, a, b, u, m) && al.words[m] != "" && b < |s| && al.IsLetter(s[b])
    ensures b == u + |al.words[m]| + 1 && !al.IsLetter(s[b - 1]) && WholeWord(al, s, u, m)
  {
  }

  /** The second word of a phrase is a whole word where the phrase is. */
  lemma SecondWord(al: Pattern, s: string, u: nat, m: nat, x: nat, y: nat)
    requires BlankApart(al.tables) && WholeWord(al, s, u, m) && IsPhrase(al.words, al.letters, m, x, y)
    ensures WholeWord(al, s, u + |al.words[x]| + 1, y)
    ensures u + |al.words[m]| == u + |al.words[x]| + 1 + |al.words[y]|
  {
    PhraseSplit(al, s, u, m, x, y);
  }

  lemma WordFollows(al: Pattern, s: string, b: nat, k: nat)
    requires BeginsWith(al, s, b, k) && (b == 0 || !al.IsLetter(s[b - 1]))
    ensures WholeWord(al, s, b, k)
  {
  }

  /** If a connector follows a cut, it stands next to the last word of that cut. */
  lemma {:induction false} CutBeforeWord(al: Pattern, s: string, a: nat, b: nat, k: nat)
    requires IsPattern(al) && NonemptyWords(al) && LongestMatch(al, s, a, b) && BeginsWith(al, s, b, k)
    ensures Crowded(al, s)
  {
    var u: nat, m: nat :| MatchVia(al, s, a, b, u, m);
    StartIsLetter(al, s, b, k);
    DelimiterTaken(al, s, a, b, u, m);
    WordFollows(al, s, b, k);
    if SingleWord(al.words[m], al.letters) {
      if i: nat :| s[b - 1] == ' ' && IsPhrase(al.words, al.letters, i, m, k) {
        var c := LongerPhrase(al, s, a, b, u, m, i, k);
        assert false;
      }
      assert CrowdedAt(al, s, u, m, k);
    } else {
      assert OneOrTwoWords(al.words, al.letters, m);
      var x: nat, j: nat :| IsPhrase(al.words, al.letters, m, x, j);
      SecondWord(al, s, u, m, x, j);
      assert CrowdedAt(al, s, u + |al.words[x]| + 1, j, k);
    }
  }

  /** Where one word is a phrase and the other a single word, the phrase begins with that word. */
  lemma PhraseBegins(al: Pattern, s: string, u: nat, j: nat, k: nat, m: nat, x: nat, y: nat)
    requires IsPattern(al) && IsPhrase(al.words, al.letters, m, x, y)
    requires WordAt(al, s, u, al.words[m]) && WordEnds(al, s, u + |al.words[m]|)
    requires WholeWord(al, s, u, j) && SingleWord(al.words[j], al.letters)
    requires WholeWord(al, s, u + |al.words[j]| + 1, k) && SingleWord(al.words[k], al.letters)
    ensures s[u + |al.words[j]|] == ' ' && IsPhrase(al.words, al.letters, m, j, k)
  {
    PhraseSplit(al, s, u, m, x, y);
    SingleWordsAgree(al, s, u, al.words[x], al.words[j]);
    SingleWordsAgree(al, s, u + |al.words[j]| + 1, al.words[y], al.words[k]);
  }

  /** A cut that starts with the first of two crowded words ends between them. */
  lemma CutOfFirst(al: Pattern, s: string, a: nat, b: nat, m: nat, u: nat, j: nat, k: nat)
    requires IsPattern(al) && MatchVia(al, s, a, b, u, m) && CrowdedAt(al, s, u, j, k)
    ensures b == u + |al.words[j]| + 1
  {
    if SingleWord(al.words[m], al.letters) {
      SingleWordsAgree(al, s, u, al.words[m], al.words[j]);
    } else {
      assert OneOrTwoWords(al.words, al.letters, m);
      var x: nat, y: nat :| IsPhrase(al.words, al.letters, m, x, y);
      PhraseBegins(al, s, u, j, k, m, x, y);
      assert false;
    }
  }

  /** The blank in a phrase is the only place in it that is not a letter. */
  lemma BlankInPhrase(al: Pattern, s: string, w: nat, m: nat, x: nat, y: nat, p: nat)
    requires GoodTables(al.letters, al.tables)
    requires IsPhrase(al.words, al.letters, m, x, y) && WordAt(al, s, w, al.words[m])
    requires w <= p < w + |al.words[m]| && !al.IsLetter(s[p])
    ensures p == w + |al.words[x]| && WordAt(al, s, p + 1, al.words[y])
  {
    PhraseSplit(al, s, w, m, x, y);
    LettersOf(al, s, w, al.words[x]);
    LettersOf(al, s, w + |al.words[x]| + 1, al.words[y]);
  }

  /** A cut that reaches the first of two crowded words from before ends in front of it or between them. */
  lemma CutOfEarlier(al: Pattern, s: string, a: nat, b: nat, w: nat, m: nat, u: nat, j: nat)
    requires IsPattern(al) && MatchVia(al, s, a, b, w, m) && WholeWord(al, s, u, j) && w < u <= b
    requires SingleWord(al.words[j], al.letters) && u + |al.words[j]| < |s|
    ensures b == u || b == u + |al.words[j]| + 1
  {
    if b != u {
      assert w <= u - 1 < w + |al.words[m]|;
      if SingleWord(al.words[m], al.letters) {
        LettersOf(al, s, w, al.words[m]);
        assert false;
      } else {
        assert OneOrTwoWords(al.words, al.letters, m);
        var x: nat, y: nat :| IsPhrase(al.words, al.letters, m, x, y);
        BlankInPhrase(al, s, w, m, x, y, u - 1);
        SingleWordsAgree(al, s, u, al.words[y], al.words[j]);
      }
    }
  }

  /** The cut over the start of two crowded words leaves one of them behind it. */
  lemma {:induction false} CutOverPair(al: Pattern, s: string, a: nat, b: nat, u: nat, j: nat, k: nat)
    requires IsPattern(al) && LongestMatch(al, s, a, b) && CrowdedAt(al, s, u, j, k)
    requires a <= (if u == 0 then 0 else u - 1) < b
    ensures ConnectorFollows(al, s, b)
  {
    var w: nat, m: nat :| MatchVia(al, s, a, b, w, m);
    StartIsLetter(al, s, w, m);
    StartIsLetter(al, s, u, j);
    if w == u {
      CutOfFirst(al, s, a, b, m, u, j, k);
    } else {
      CutOfEarlier(al, s, a, b, w, m, u, j);
    }
    assert if b == u then BeginsWith(al, s, b, j) else BeginsWith(al, s, b, k);
  }

  /** Every start of a match lies in a cut. */
  lemma {:induction false} Covered(al: Pattern, s: string, cuts: Cuts, i: nat, p: nat, b: nat) returns (c: nat)
    requires NonemptyWords(al) && IsCutting(al, s, cuts) && MatchAt(al, s, p, b)
    requires i <= |cuts| && EndOf(cuts, i) <= p
    ensures c < |cuts| && cuts[c].0 <= p < cuts[c].1
    decreases |cuts| - i
  {
    MatchIsNonempty(al, s, p, b);
    assert i < |cuts|;
    assert CutAt(al, s, cuts, i);
    if p < cuts[i].1 {
      c := i;
    } else {
      c := Covered(al, s, cuts, i + 1, p, b);
    }
  }

  lemma CrowdedIsLeft(al: Pattern, s: string, cuts: Cuts) returns (i: nat)
    requires IsPattern(al) && IsCutting(al, s, cuts) && Crowded(al, s)
    ensures i <= |cuts| && HasPiece(s, cuts, i) && HasConnector(al, Piece(s, cuts, i))
  {
    PatternNonempty(al);
    var u: nat, j: nat, k: nat :| CrowdedAt(al, s, u, j, k);
    var b := WholeWordMatches(al, s, u, j);
    var c := Covered(al, s, cuts, 0, if u == 0 then 0 else u - 1, b);
    assert CutAt(al, s, cuts, c);
    CutOverPair(al, s, cuts[c].0, cuts[c].1, u, j, k);
    i := c + 1;
    SurvivorIff(al, s, cuts, i);
  }

  lemma LeftIsCrowded(al: Pattern, s: string, cuts: Cuts, i: nat)
    requires IsPattern(al) && IsCutting(al, s, cuts) && HasPiece(s, cuts, i) && HasConnector(al, Piece(s, cuts, i))
    ensures Crowded(al, s)
  {
    SurvivorIff(al, s, cuts, i);
    var k: nat :| BeginsWith(al, s, EndOf(cuts, i), k);
    PatternNonempty(al);
    assert CutAt(al, s, cuts, i - 1);
    CutBeforeWord(al, s, cuts[i - 1].0, cuts[i - 1].1, k);
  }

  lemma {:induction false} SegmentMembers(al: Pattern, pieces: seq<string>)
    ensures forall t :: t in Segments(al, pieces) ==> exists i: nat :: i < |pieces| && t == TrimSpace(al, pieces[i])
    ensures forall i | 0 <= i < |pieces| && TrimSpace(al, pieces[i]) != "" ::
              TrimSpace(al, pieces[i]) in Segments(al, pieces)
  {
    if pieces != [] {
      var last := |pieces| - 1;
      SegmentMembers(al, pieces[..last]);
      forall t | t in Segments(al, pieces)
        ensures exists i: nat :: i < |pieces| && t == TrimSpace(al, pieces[i])
      {
        if t in Segments(al, pieces[..last]) {
          var i: nat :| i < last && t == TrimSpace(al, pieces[..last][i]);
          assert t == TrimSpace(al, pieces[i]);
        } else {
          assert t == TrimSpace(al, pieces[last]);
        }
      }
      forall i | 0 <= i < |pieces| && TrimSpace(al, pieces[i]) != ""
        ensures TrimSpace(al, pieces[i]) in Segments(al, pieces)
      {
        assert i < last ==> pieces[..last][i] == pieces[i];
      }
    }
  }

  /**
   Which texts leave a connector in a segment: exactly those in which two one-word connectors stand
   one code point apart without being a connector of two words.
   */
  lemma {:induction false} ConnectorLeftIff(
    al: Pattern, s: string, cuts: Cuts, pieces: seq<string>, segments: seq<string>)
    requires IsPattern(al) && AreSegmentsOf(al, s, cuts, pieces, segments)
    ensures ConnectorLeft(al, segments) <==> Crowded(al, s)
  {
    SegmentMembers(al, pieces);
    if t :| t in segments && HasConnector(al, t) {
      var i: nat :| i < |pieces| && t == TrimSpace(al, pieces[i]);
      assert HasPiece(s, cuts, i) && pieces[i] == Piece(s, cuts, i);
      TrimmedSurvivor(al, s, cuts, i);
      LeftIsCrowded(al, s, cuts, i);
    }
    if Crowded(al, s) {
      var i := CrowdedIsLeft(al, s, cuts);
      assert HasPiece(s, cuts, i) && pieces[i] == Piece(s, cuts, i);
      TrimmedSurvivor(al, s, cuts, i);
      assert TrimSpace(al, pieces[i]) in segments;
    }
  }

  lemma {:induction false} SegmentsAreTrim(al: Pattern, pieces: seq<string>)
    ensures forall t | t in Segments(al, pieces) ::
              t != "" && !al.tables.isSpace(t[0]) && !al.tables.isSpace(t[|t| - 1])
  {
    if pieces != [] {
      var last := |pieces| - 1;
      SegmentsAreTrim(al, pieces[..last]);
      var l := TrimSpaceShape(al, pieces[last]);
    }
  }

  // ----- the function itself -----

  method SplitBy(al: Pattern, userInput: string) returns (segments: seq<string>)
    requires IsPattern(al)
    ensures exists cuts, pieces :: AreSegmentsOf(al, userInput, cuts, pieces, segments)
  {
    var rawSegments := Split(al, userInput);
    ghost var cuts :| IsCutting(al, userInput, cuts) && ArePieces(userInput, cuts, rawSegments);
    segments := [];
    for i := 0 to |rawSegments|
      invariant segments == Segments(al, rawSegments[..i])
    {
      var trimmed := TrimSpace(al, rawSegments[i]);
      assert rawSegments[..i + 1][..i] == rawSegments[..i];
      if trimmed != "" {
        segments := segments + [trimmed];
      }
    }
    assert rawSegments[..|rawSegments|] == rawSegments;
    assert AreSegmentsOf(al, userInput, cuts, rawSegments, segments);
  }

  method SplitSegments(tables: Tables, userInput: string) returns (segments: seq<string>)
    requires GoodTables(LETTERS, tables)
    ensures var al := SegmentSplitPattern(tables);
            && (exists cuts, pieces :: AreSegmentsOf(al, userInput, cuts, pieces, segments))
            && (ConnectorLeft(al, segments) <==> Crowded(al, userInput))
    ensures forall t | t in segments :: t != "" && !tables.isSpace(t[0]) && !tables.isSpace(t[|t| - 1])
  {
    var al := SegmentSplitPattern(tables);
    SplitPatternIsPattern(tables);
    segments := SplitBy(al, userInput);
    ghost var cuts, pieces :| AreSegmentsOf(al, userInput, cuts, pieces, segments);
    ConnectorLeftIff(al, userInput, cuts, pieces, segments);
    SegmentsAreTrim(al, pieces);
  }

  // ----- a text in which a connector is left -----

  const LEFTOVER := "he then and he"

  lemma LeftoverMatch(tables: Tables)
    requires GoodTables(LETTERS, tables)
    ensures MatchFrom(SegmentSplitPattern(tables), LEFTOVER, 2) == Some(8)
  {
    assert WordAt(SegmentSplitPattern(tables), LEFTOVER, 3, "then");
  }

  lemma NoConnectorStarts(tables: Tables, s: string, u: nat, k: nat)
    requires GoodTables(LETTERS, tables) && k < |CONNECTORS| && WordAt(SegmentSplitPattern(tables), s, u, CONNECTORS[k])
    ensures u < |s| && s[u] !in {'h', 'e', 'n', 'd', ' '}
  {
    assert CONNECTORS[k][0] in {'t', 'a', 'п', 'т', 'і'};
    assert SegmentSplitPattern(tables).Same(s[u + 0], CONNECTORS[k][0]);
    assert s[u] in LETTERS ==> FoldsApart(tables, s[u], CONNECTORS[k][0]);
  }

  lemma LeftoverStarts(tables: Tables, a: nat, b: nat)
    requires GoodTables(LETTERS, tables) && MatchAt(SegmentSplitPattern(tables), LEFTOVER, a, b)
    ensures a == 2 || a == 7
  {
    var u: nat, k: nat :| MatchVia(SegmentSplitPattern(tables), LEFTOVER, a, b, u, k);
    NoConnectorStarts(tables, LEFTOVER, u, k);
  }

  /** "he then and he" is cut once; the second segment still begins with "and". */
  lemma LeftoverExample(tables: Tables)
    requires GoodTables(LETTERS, tables)
    ensures IsCutting(SegmentSplitPattern(tables), LEFTOVER, [(2, 8)])
    ensures ArePieces(LEFTOVER, [(2, 8)], ["he", "and he"])
    ensures WholeWord(SegmentSplitPattern(tables), "and he", 0, 3)
  {
    var al, cuts: Cuts := SegmentSplitPattern(tables), [(2, 8)];
    SplitPatternIsPattern(tables);
    LeftoverMatch(tables);
    FirstIsLongest(al, LEFTOVER, 2);
    forall a: nat, b: nat | MatchAt(al, LEFTOVER, a, b)
      ensures a == 2 || a == 7
    {
      LeftoverStarts(tables, a, b);
    }
    assert CutAt(al, LEFTOVER, cuts, 0);
    assert LEFTOVER[0..2] == "he" && LEFTOVER[8..14] == "and he";
  }
}
