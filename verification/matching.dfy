/**
 * Scoring a clause against a segment and classifying the score
 * (app/nlp/matching.py).
 *
 * The TF-IDF cosine similarity is library code outside the model: it is a
 * parameter `sim` of type Similarity, which either yields a number or fails
 * (the library rejects a pair whose vocabulary is empty after stop-word
 * removal). Lemmas that need its range assume InRange(sim).
 */
module Matching {
  import opened Wrappers
  import opened Values
  import opened ClausePrep

  // ---------------------------------------------------------------------------
  // Whole-word search: re.search(rf"\b{kw}\b", segment)

  /** The regex class `\w`, over ASCII. */
  predicate IsWordChar(c: char) {
    'a' <= c <= 'z' || 'A' <= c <= 'Z' || '0' <= c <= '9' || c == '_'
  }

  /** `\b` holds at position `p` of `s`: exactly one side of it is a word character. */
  predicate BoundaryAt(s: string, p: int)
    requires 0 <= p <= |s|
  {
    (p > 0 && IsWordChar(s[p - 1])) != (p < |s| && IsWordChar(s[p]))
  }

  /** `\b{kw}\b` matches `s` at position `i`. */
  predicate WordAt(kw: string, s: string, i: int) {
    && 0 <= i
    && i + |kw| <= |s|
    && s[i..i + |kw|] == kw
    && BoundaryAt(s, i)
    && BoundaryAt(s, i + |kw|)
  }

  /**
   * The search succeeds. Keywords reach the pattern unescaped; normalized
   * keywords hold only `[a-z0-9 ]`, which the pattern reads literally.
   */
  predicate ContainsWord(s: string, kw: string) {
    exists i | 0 <= i <= |s| - |kw| :: WordAt(kw, s, i)
  }

  /** `kw` occurs in `s` at `i` with no word character right before or right after it. */
  predicate StandaloneAt(kw: string, s: string, i: int) {
    && 0 <= i
    && i + |kw| <= |s|
    && s[i..i + |kw|] == kw
    && (i == 0 || !IsWordChar(s[i - 1]))
    && (i + |kw| == |s| || !IsWordChar(s[i + |kw|]))
  }

  /**
   * For a keyword that starts and ends with a word character, as every
   * non-empty normalized keyword does, the search finds exactly the
   * occurrences not glued to a neighbouring letter, digit or underscore.
   */
  lemma WholeWordIff(s: string, kw: string)
    requires kw != [] && IsWordChar(kw[0]) && IsWordChar(kw[|kw| - 1])
    ensures ContainsWord(s, kw) <==> exists i :: StandaloneAt(kw, s, i)
  {
    forall i ensures WordAt(kw, s, i) <==> StandaloneAt(kw, s, i) {
      if 0 <= i && i + |kw| <= |s| && s[i..i + |kw|] == kw {
        assert s[i] == s[i..i + |kw|][0];
        assert s[i + |kw| - 1] == s[i..i + |kw|][|kw| - 1];
      }
    }
  }

  // ---------------------------------------------------------------------------
  // keyword_score

  /** Which entries of `kws` occur whole-word in `s`. */
  function Found(kws: seq<string>, s: string): (b: seq<bool>)
    ensures |b| == |kws|
  {
    seq(|kws|, i requires 0 <= i < |kws| => ContainsWord(s, kws[i]))
  }

  /** The number of `true` entries. */
  function CountTrue(b: seq<bool>): (n: nat)
    ensures n <= |b|
  {
    if b == [] then 0 else CountTrue(b[..|b| - 1]) + (if b[|b| - 1] then 1 else 0)
  }

  /** How many entries of `kws` (duplicates counted separately) occur whole-word in `s`. */
  function MatchCount(kws: seq<string>, s: string): (n: nat)
    ensures n <= |kws|
  {
    CountTrue(Found(kws, s))
  }

  /** The value keyword_score returns: the fraction of keywords found, 0 for no keywords. */
  function KeywordFraction(kws: seq<string>, s: string): (r: real)
    ensures 0.0 <= r <= 1.0
    ensures kws == [] ==> r == 0.0
  {
    if kws == [] then 0.0 else MatchCount(kws, s) as real / |kws| as real
  }

  /** keyword_score */
  method KeywordScore(keywords: seq<string>, segment: string) returns (score: real)
    ensures score == KeywordFraction(keywords, segment)
  {
    if |keywords| == 0 {
      return 0.0;
    }
    ghost var found := Found(keywords, segment);
    var matched: nat := 0;
    for i := 0 to |keywords|
      invariant matched == CountTrue(found[..i])
    {
      assert found[..i + 1][..i] == found[..i];
      if ContainsWord(segment, keywords[i]) {
        matched := matched + 1;
      }
    }
    assert found[..|keywords|] == found;
    return matched as real / |keywords| as real;
  }

  /** The positions holding `true`. */
  ghost function TrueIndices(b: seq<bool>): set<int> {
    set i | 0 <= i < |b| && b[i]
  }

  lemma {:induction false} CountTrueIsTrueIndices(b: seq<bool>)
    ensures CountTrue(b) == |TrueIndices(b)|
  {
    if b != [] {
      var n := |b| - 1;
      var prefix := b[..n];
      CountTrueIsTrueIndices(prefix);
      var before := TrueIndices(prefix);
      assert n !in before;
      if b[n] {
        assert TrueIndices(b) == before + {n};
      } else {
        assert TrueIndices(b) == before;
      }
    }
  }

  lemma {:induction false} CountTrueExtremes(b: seq<bool>)
    ensures CountTrue(b) == |b| <==> forall i :: 0 <= i < |b| ==> b[i]
    ensures CountTrue(b) == 0 <==> forall i :: 0 <= i < |b| ==> !b[i]
  {
    if b != [] {
      var n := |b| - 1;
      CountTrueExtremes(b[..n]);
      assert forall i :: 0 <= i < n ==> b[..n][i] == b[i];
    }
  }

  /** The indices of the keywords found in `s`. */
  ghost function FoundIndices(kws: seq<string>, s: string): set<int> {
    set i | 0 <= i < |kws| && ContainsWord(s, kws[i])
  }

  /** MatchCount counts keyword positions, not distinct keywords. */
  lemma MatchCountIsFoundIndices(kws: seq<string>, s: string)
    ensures MatchCount(kws, s) == |FoundIndices(kws, s)|
  {
    CountTrueIsTrueIndices(Found(kws, s));
    assert TrueIndices(Found(kws, s)) == FoundIndices(kws, s);
  }

  /** keyword_score is 1 exactly when every keyword is found and 0 exactly when none is. */
  lemma KeywordFractionExtremes(kws: seq<string>, s: string)
    requires kws != []
    ensures KeywordFraction(kws, s) == 1.0 <==> forall i :: 0 <= i < |kws| ==> ContainsWord(s, kws[i])
    ensures KeywordFraction(kws, s) == 0.0 <==> forall i :: 0 <= i < |kws| ==> !ContainsWord(s, kws[i])
  {
    var b := Found(kws, s);
    CountTrueExtremes(b);
    assert forall i :: 0 <= i < |kws| ==> b[i] == ContainsWord(s, kws[i]);
    RatioExtremes(MatchCount(kws, s), |kws|);
  }

  lemma RatioExtremes(m: nat, n: nat)
    requires 0 < n
    ensures m as real / n as real == 1.0 <==> m == n
    ensures m as real / n as real == 0.0 <==> m == 0
  {
    var f := m as real / n as real;
    assert f * n as real == m as real;
  }

  /** Some character of `s` before or at `j` starts a word. */
  lemma {:induction false} BoundaryBefore(s: string, j: int)
    requires 0 <= j < |s| && IsWordChar(s[j])
    ensures exists p :: 0 <= p <= j && BoundaryAt(s, p)
  {
    if j > 0 && IsWordChar(s[j - 1]) {
      BoundaryBefore(s, j - 1);
    } else {
      assert BoundaryAt(s, j);
    }
  }

  /**
   * An empty keyword (what a punctuation-only keyword normalizes to) is found
   * in every segment that holds a word character: `\b\b` matches at any word
   * boundary.
   */
  lemma EmptyKeywordMatchesAnyWord(s: string)
    ensures ContainsWord(s, "") <==> exists j :: 0 <= j < |s| && IsWordChar(s[j])
  {
    if exists j :: 0 <= j < |s| && IsWordChar(s[j]) {
      var j :| 0 <= j < |s| && IsWordChar(s[j]);
      BoundaryBefore(s, j);
      var p :| 0 <= p <= j && BoundaryAt(s, p);
      assert WordAt("", s, p);
    }
  }

  /** Whole-word, not substring: "log" is not found in "user login required", but is in "audit log kept". */
  lemma SubstringIsNotAWord()
    ensures !ContainsWord("user login required", "log")
    ensures ContainsWord("audit log kept", "log")
  {
    var s := "user login required";
    forall i | 0 <= i <= |s| - 3 ensures !WordAt("log", s, i) {
      if i != 5 {
        assert s[i..i + 3] != "log" by {
          assert s[i..i + 3][0] == s[i];
          assert s[i..i + 3][1] == s[i + 1];
        }
      }
    }
    assert WordAt("log", "audit log kept", 6);
  }

  // ---------------------------------------------------------------------------
  // score and classify

  /** tfidf_score: a cosine similarity, or None where the library raises. */
  type Similarity = (string, string) -> Option<real>

  /** The similarity stays in [0, 1] wherever it is defined. */
  ghost predicate InRange(sim: Similarity) {
    forall a, b :: sim(a, b).Some? ==> 0.0 <= sim(a, b).value <= 1.0
  }

  /**
   * score: a keyword fraction of at least 0.5 gives exactly 0.8 without
   * consulting the similarity; below that, the mean of the keyword fraction
   * and the similarity of the normalized requirement to the segment.
   */
  function Score(keywords: seq<string>, requirement: string, segment: string, sim: Similarity): (r: Option<real>)
    ensures KeywordFraction(keywords, segment) >= 0.5 ==> r == Some(0.8)
    ensures KeywordFraction(keywords, segment) < 0.5 ==> (r.Some? <==> sim(requirement, segment).Some?)
    ensures InRange(sim) && r.Some? ==> 0.0 <= r.value <= 1.0
    ensures InRange(sim) && r.Some? ==> r.value >= KeywordFraction(keywords, segment) / 2.0
    ensures InRange(sim) && r.Some? && KeywordFraction(keywords, segment) < 0.5 ==> r.value < 0.75
  {
    var kw := KeywordFraction(keywords, segment);
    if kw >= 0.5 then Some(0.8)
    else
      match sim(requirement, segment)
      case None => None
      case Some(similarity) => Some(0.5 * kw + 0.5 * similarity)
  }

  // ---------------------------------------------------------------------------
  // score(clause, segment) on a clause record

  /**
   * The keywords keyword_score iterates, `clause["normalized_keywords"]`:
   * none when the value is falsy; None where Python raises (the key is
   * absent, a truthy value is not iterable, a keyword is not text).
   */
  function ClauseKeywords(c: Record): (r: Option<seq<string>>)
    ensures NormalizedKeywordsField !in c ==> r.None?
    ensures NormalizedKeywordsField in c && !Truthy(c[NormalizedKeywordsField]) ==> r == Some([])
    ensures NormalizedKeywordsField in c && Truthy(c[NormalizedKeywordsField]) && r.Some? ==>
      && Elements(c[NormalizedKeywordsField]).Some?
      && |r.value| == |Elements(c[NormalizedKeywordsField]).value|
      && forall i :: 0 <= i < |r.value| ==> Elements(c[NormalizedKeywordsField]).value[i] == Str(r.value[i])
    ensures NormalizedKeywordsField in c && Truthy(c[NormalizedKeywordsField])
      && Elements(c[NormalizedKeywordsField]).Some?
      && (forall i :: 0 <= i < |Elements(c[NormalizedKeywordsField]).value| ==>
            Elements(c[NormalizedKeywordsField]).value[i].Str?)
      ==> r.Some?
    ensures Prepared(c) ==> r == Some(Keywords(c))
  {
    if NormalizedKeywordsField !in c then None
    else
      var v := c[NormalizedKeywordsField];
      if !Truthy(v) then Some([])
      else
        match Elements(v)
        case None => None
        case Some(items) =>
          if forall i :: 0 <= i < |items| ==> items[i].Str? then
            Some(seq(|items|, i requires 0 <= i < |items| => items[i].s))
          else None
  }

  /**
   * score(clause, segment) on a clause record: the keywords are read first,
   * and `clause["normalized_requirement"]` only when the keyword fraction is
   * below 0.5. None where Python raises: the keywords cannot be read, or the
   * requirement is needed and is absent or not text.
   */
  function ClauseScore(c: Record, segment: string, sim: Similarity): (r: Option<real>)
    ensures r.Some? ==> ClauseKeywords(c).Some?
    ensures ClauseKeywords(c).Some? && KeywordFraction(ClauseKeywords(c).value, segment) >= 0.5 ==> r == Some(0.8)
    ensures ClauseKeywords(c).Some? && KeywordFraction(ClauseKeywords(c).value, segment) < 0.5 ==>
      (r.Some? <==>
        && NormalizedRequirementField in c
        && c[NormalizedRequirementField].Str?
        && sim(c[NormalizedRequirementField].s, segment).Some?)
    ensures InRange(sim) && r.Some? ==> 0.0 <= r.value <= 1.0
  {
    match ClauseKeywords(c)
    case None => None
    case Some(kws) =>
      if KeywordFraction(kws, segment) >= 0.5 then Some(0.8)
      else if NormalizedRequirementField in c && c[NormalizedRequirementField].Str? then
        Score(kws, c[NormalizedRequirementField].s, segment, sim)
      else None
  }

  /** On a prepared record, score is Score on its normalized keywords and requirement. */
  lemma ClauseScoreOfPrepared(c: Record, segment: string, sim: Similarity)
    requires Prepared(c)
    ensures ClauseScore(c, segment, sim) == Score(Keywords(c), Requirement(c), segment, sim)
  {
  }

  /**
   * The requirement is not needed when half the keywords are found: a record
   * with the keyword "x" and no requirement scores 0.8 against "x".
   */
  lemma KeywordsSufficeWithoutRequirement(sim: Similarity)
    ensures ClauseScore(map[NormalizedKeywordsField := Arr([Str("x")])], "x", sim) == Some(0.8)
  {
    var c := map[NormalizedKeywordsField := Arr([Str("x")])];
    assert c[NormalizedKeywordsField] == Arr([Str("x")]);
    var items := [Str("x")];
    assert NormalizedKeywordsField in c && Truthy(Arr(items));
    assert Elements(Arr(items)) == Some(items);
    assert seq(|items|, i requires 0 <= i < |items| => items[i].s) == ["x"];
    assert ClauseKeywords(c) == Some(["x"]);
    assert WordAt("x", "x", 0);
    assert Found(["x"], "x") == [true];
    assert CountTrue([true]) == 1 by {
      assert [true][..0] == [];
    }
  }

  datatype Coverage = Covered | Partial | Missing

  /** classify: the lower end of each band is closed, so a tie goes to the higher band. */
  function Classify(score: real): (c: Coverage)
    ensures c == Covered <==> score >= 0.6
    ensures c == Partial <==> 0.25 <= score < 0.6
    ensures c == Missing <==> score < 0.25
  {
    if score >= 0.6 then Covered
    else if score >= 0.25 then Partial
    else Missing
  }

  /** The order of the bands: Missing < Partial < Covered. */
  function Rank(c: Coverage): nat {
    match c
    case Missing => 0
    case Partial => 1
    case Covered => 2
  }

  /** A higher score never lands in a lower band. */
  lemma ClassifyMonotone(s1: real, s2: real)
    requires s1 <= s2
    ensures Rank(Classify(s1)) <= Rank(Classify(s2))
  {
  }

  lemma ClassifyBoundaries()
    ensures Classify(0.6) == Covered && Classify(0.599) == Partial
    ensures Classify(0.25) == Partial && Classify(0.249) == Missing
  {
  }

  /** A keyword fraction of at least 0.5 is always classified Covered. */
  lemma KeywordMajorityIsCovered(keywords: seq<string>, requirement: string, segment: string, sim: Similarity)
    requires KeywordFraction(keywords, segment) >= 0.5
    ensures Score(keywords, requirement, segment, sim) == Some(0.8)
    ensures Classify(Score(keywords, requirement, segment, sim).value) == Covered
  {
  }

  /** A clause with the keyword "encryption" against a segment that uses the word scores 0.8, Covered. */
  lemma EncryptionKeywordScenario(sim: Similarity)
    ensures KeywordFraction(["encryption"], "all data is protected by encryption at rest") == 1.0
    ensures Score(["encryption"], "data must be encrypted at rest", "all data is protected by encryption at rest", sim)
      == Some(0.8)
  {
    var s := "all data is protected by encryption at rest";
    assert WordAt("encryption", s, 25);
    assert ContainsWord(s, "encryption");
    assert Found(["encryption"], s) == [true];
    assert CountTrue([true]) == 1 by {
      assert [true][..0] == [];
    }
    assert KeywordFraction(["encryption"], s) == 1.0;
    KeywordMajorityIsCovered(["encryption"], "data must be encrypted at rest", s, sim);
  }

  /**
   * "encryption" is not a whole word of "... is encrypted using aes256": the
   * keyword score of that pair is 0, not 1.
   */
  lemma EncryptedIsNotEncryption()
    ensures !ContainsWord("all data at rest is encrypted using aes256", "encryption")
    ensures KeywordFraction(["encryption"], "all data at rest is encrypted using aes256") == 0.0
  {
    var s := "all data at rest is encrypted using aes256";
    var kw := "encryption";
    forall i | 0 <= i <= |s| - |kw| ensures !WordAt(kw, s, i) {
      if s[i] != 'e' {
        assert s[i..i + |kw|][0] == s[i];
      } else {
        assert s[i..i + |kw|][7] == s[i + 7];
      }
    }
    assert Found(["encryption"], s) == [false];
    assert CountTrue([false]) == 0 by {
      assert [false][..0] == [];
    }
  }
}
