/**
 * The gap report (app/reporting/gap_report.py): for every catalogue record,
 * the best-scoring policy segment, its coverage class and the rounded score.
 */
module GapReport {
  import opened Wrappers
  import opened Values
  import opened ClausePrep
  import opened Matching
  import Text

  // ---------------------------------------------------------------------------
  // The running best over a sequence of scores

  /** The best score after scanning `ss` from a start of 0, replacing it only on a strictly greater score. */
  function BestOf(ss: seq<real>): real {
    if ss == [] then 0.0
    else
      var best := BestOf(ss[..|ss| - 1]);
      if ss[|ss| - 1] > best then ss[|ss| - 1] else best
  }

  /** The position the scan last replaced the best at, or -1 when it never did. */
  function WinnerOf(ss: seq<real>): (w: int)
    ensures -1 <= w < |ss|
  {
    if ss == [] then -1
    else
      var w := WinnerOf(ss[..|ss| - 1]);
      if ss[|ss| - 1] > BestOf(ss[..|ss| - 1]) then |ss| - 1 else w
  }

  /** The running best is the maximum of 0 and all the scores. */
  lemma {:induction false} BestOfIsMaximum(ss: seq<real>)
    ensures BestOf(ss) >= 0.0
    ensures forall i :: 0 <= i < |ss| ==> ss[i] <= BestOf(ss)
    ensures BestOf(ss) == 0.0 || exists i :: 0 <= i < |ss| && ss[i] == BestOf(ss)
  {
    if ss != [] {
      var prefix := ss[..|ss| - 1];
      BestOfIsMaximum(prefix);
      assert forall i :: 0 <= i < |prefix| ==> prefix[i] == ss[i];
    }
  }

  /**
   * There is no winner exactly when no score is above 0; otherwise the winner
   * holds the best score and beats every earlier score strictly: it is the
   * earliest position of the maximum.
   */
  lemma {:induction false} WinnerOfIsEarliestMaximum(ss: seq<real>)
    ensures WinnerOf(ss) == -1 <==> forall i :: 0 <= i < |ss| ==> ss[i] <= 0.0
    ensures WinnerOf(ss) >= 0 ==> ss[WinnerOf(ss)] == BestOf(ss) && ss[WinnerOf(ss)] > 0.0
    ensures WinnerOf(ss) >= 0 ==> forall i :: 0 <= i < WinnerOf(ss) ==> ss[i] < ss[WinnerOf(ss)]
  {
    if ss != [] {
      var prefix := ss[..|ss| - 1];
      WinnerOfIsEarliestMaximum(prefix);
      BestOfIsMaximum(prefix);
      assert forall i :: 0 <= i < |prefix| ==> prefix[i] == ss[i];
    }
  }

  /** A position holding a score no smaller than any other, and larger than every earlier one, is the winner. */
  lemma WinnerIsEarliestMaximum(ss: seq<real>, k: int)
    requires 0 <= k < |ss| && ss[k] > 0.0
    requires forall i :: 0 <= i < |ss| ==> ss[i] <= ss[k]
    requires forall i :: 0 <= i < k ==> ss[i] < ss[k]
    ensures WinnerOf(ss) == k
  {
    WinnerOfIsEarliestMaximum(ss);
    BestOfIsMaximum(ss);
  }

  // ---------------------------------------------------------------------------
  // Report entries

  /** The exception the report can raise: scoring a pair failed. */
  datatype ReportError = ScoreUndefined

  /** One report row: `clause_id`, `title`, `coverage`, `score`, `matched_text`. */
  datatype Entry = Entry(clauseId: Value, title: Value, coverage: Coverage, score: real, matchedText: string)

  /** `c.get("clause_id") or c.get("id")` */
  function ClauseId(c: Record): (v: Value)
    ensures Truthy(Get(c, "clause_id")) ==> v == Get(c, "clause_id")
    ensures !Truthy(Get(c, "clause_id")) ==> v == Get(c, "id")
  {
    if Truthy(Get(c, "clause_id")) then Get(c, "clause_id") else Get(c, "id")
  }

  /** `c.get("title") or c.get("control")` */
  function Title(c: Record): (v: Value)
    ensures Truthy(Get(c, "title")) ==> v == Get(c, "title")
    ensures !Truthy(Get(c, "title")) ==> v == Get(c, "control")
  {
    if Truthy(Get(c, "title")) then Get(c, "title") else Get(c, "control")
  }

  /** round(x, 2) over exact numbers: the nearest hundredth, a tie going to the even one. */
  function Round2(x: real): (r: real)
    ensures -0.005 <= r - x <= 0.005
    ensures (x * 100.0).Floor as real == x * 100.0 ==> r == x
    ensures 0.0 <= x <= 1.0 ==> 0.0 <= r <= 1.0
    ensures (r * 100.0).Floor as real == r * 100.0
    ensures x * 100.0 - (x * 100.0).Floor as real == 0.5 ==> (r * 100.0).Floor % 2 == 0
  {
    var scaled := x * 100.0;
    var f := scaled.Floor;
    var frac := scaled - f as real;
    var n := if frac < 0.5 then f else if frac > 0.5 then f + 1 else if f % 2 == 0 then f else f + 1;
    assert -0.5 <= n as real - scaled <= 0.5;
    n as real / 100.0
  }

  function Abs(d: real): real {
    if d < 0.0 then -d else d
  }

  /** No hundredth is closer to `x` than `Round2(x)`. */
  lemma Round2IsNearest(x: real, k: int)
    ensures Abs(Round2(x) - x) <= Abs(k as real / 100.0 - x)
  {
    var scaled := x * 100.0;
    var f := scaled.Floor;
    var frac := scaled - f as real;
    var n := if frac < 0.5 then f else if frac > 0.5 then f + 1 else if f % 2 == 0 then f else f + 1;
    assert Round2(x) == n as real / 100.0;
    var dn, dk := n as real - scaled, k as real - scaled;
    assert Abs(dn) <= Abs(dk) by {
      assert 0.0 <= frac < 1.0;
      if k <= f {
        assert dk <= -frac;
      } else {
        assert dk >= 1.0 - frac;
      }
    }
    assert Round2(x) - x == dn / 100.0;
    assert k as real / 100.0 - x == dk / 100.0;
  }

  // ---------------------------------------------------------------------------
  // Scoring pairs

  /**
   * A pair scorer: the score of a clause against a segment's normal form, or
   * None where computing it raises.
   */
  type Scorer = (Record, string) -> Option<real>

  /** The scorer generate_gap_report uses: matching's `score` on the clause record. */
  function PairScore(sim: Similarity): Scorer {
    (c: Record, segment: string) => ClauseScore(c, segment, sim)
  }

  /** Every score the scorer gives lies in [0, 1]. */
  ghost predicate ScorerInRange(score: Scorer) {
    forall c, segment :: score(c, segment).Some? ==> 0.0 <= score(c, segment).value <= 1.0
  }

  lemma PairScoreInRange(sim: Similarity)
    requires InRange(sim)
    ensures ScorerInRange(PairScore(sim))
  {
    forall c, segment | PairScore(sim)(c, segment).Some?
      ensures 0.0 <= PairScore(sim)(c, segment).value <= 1.0
    {
    }
  }

  /** Every segment has a score against `c`. */
  predicate AllScored(c: Record, segs: seq<Text.Segment>, score: Scorer) {
    forall j :: 0 <= j < |segs| ==> score(c, segs[j].normalized).Some?
  }

  /** The scores of all segments against `c`, in segment order. */
  function ScoresOf(c: Record, segs: seq<Text.Segment>, score: Scorer): (ss: seq<real>)
    requires AllScored(c, segs, score)
    ensures |ss| == |segs|
    ensures forall j :: 0 <= j < |segs| ==> score(c, segs[j].normalized) == Some(ss[j])
  {
    seq(|segs|, j requires 0 <= j < |segs| => score(c, segs[j].normalized).value)
  }

  // ---------------------------------------------------------------------------
  // Report entries and the report

  /** The entry generate_gap_report emits for one clause. */
  function EntryFor(c: Record, segs: seq<Text.Segment>, score: Scorer): Entry
    requires AllScored(c, segs, score)
  {
    var ss := ScoresOf(c, segs, score);
    var best := BestOf(ss);
    var w := WinnerOf(ss);
    Entry(ClauseId(c), Title(c), Classify(best), Round2(best), if w == -1 then "" else segs[w].text)
  }

  /**
   * What an entry says. With no segment scoring above 0 it reports Missing,
   * 0 and no text; otherwise the earliest segment with the highest score
   * supplies the text, the rounded score and (unrounded) the coverage.
   */
  lemma EntryForMeaning(c: Record, segs: seq<Text.Segment>, score: Scorer)
    requires AllScored(c, segs, score)
    ensures EntryFor(c, segs, score).clauseId == ClauseId(c) && EntryFor(c, segs, score).title == Title(c)
    ensures EntryFor(c, segs, score).matchedText == ""
      || exists j :: 0 <= j < |segs| && EntryFor(c, segs, score).matchedText == segs[j].text
    ensures (forall j :: 0 <= j < |segs| ==> ScoresOf(c, segs, score)[j] <= 0.0) ==>
      EntryFor(c, segs, score) == Entry(ClauseId(c), Title(c), Missing, 0.0, "")
    ensures (exists j :: 0 <= j < |segs| && ScoresOf(c, segs, score)[j] > 0.0) ==>
      exists j ::
        && 0 <= j < |segs|
        && (forall i :: 0 <= i < |segs| ==> ScoresOf(c, segs, score)[i] <= ScoresOf(c, segs, score)[j])
        && (forall i :: 0 <= i < j ==> ScoresOf(c, segs, score)[i] < ScoresOf(c, segs, score)[j])
        && EntryFor(c, segs, score).matchedText == segs[j].text
        && EntryFor(c, segs, score).coverage == Classify(ScoresOf(c, segs, score)[j])
        && EntryFor(c, segs, score).score == Round2(ScoresOf(c, segs, score)[j])
  {
    var ss := ScoresOf(c, segs, score);
    var w := WinnerOf(ss);
    BestOfIsMaximum(ss);
    WinnerOfIsEarliestMaximum(ss);
    if w == -1 {
      assert BestOf(ss) == 0.0;
      assert Round2(0.0) == 0.0;
    } else {
      assert ss[w] == BestOf(ss);
    }
  }

  /**
   * The inner loop of generate_gap_report: the best score over the segments
   * and the text of the segment that set it, or None when a pair has no
   * score.
   */
  method BestMatch(c: Record, segments: seq<Text.Segment>, score: Scorer) returns (r: Option<(real, string)>)
    ensures r.Some? <==> AllScored(c, segments, score)
    ensures r.Some? ==> r.value.0 == BestOf(ScoresOf(c, segments, score))
    ensures r.Some? ==>
      var w := WinnerOf(ScoresOf(c, segments, score));
      r.value.1 == if w == -1 then "" else segments[w].text
  {
    var bestScore := 0.0;
    var bestText := "";
    ghost var scores: seq<real> := [];
    for j := 0 to |segments|
      invariant |scores| == j
      invariant forall k :: 0 <= k < j ==> score(c, segments[k].normalized) == Some(scores[k])
      invariant bestScore == BestOf(scores)
      invariant bestText == if WinnerOf(scores) == -1 then "" else segments[WinnerOf(scores)].text
    {
      var s := score(c, segments[j].normalized);
      if s.None? {
        return None;
      }
      assert (scores + [s.value])[..j] == scores;
      if s.value > bestScore {
        bestScore := s.value;
        bestText := segments[j].text;
      }
      scores := scores + [s.value];
    }
    assert scores == ScoresOf(c, segments, score);
    return Some((bestScore, bestText));
  }

  /** One iteration of the outer loop of generate_gap_report: the entry for clause `c`. */
  method ClauseEntry(c: Record, segments: seq<Text.Segment>, score: Scorer) returns (r: Option<Entry>)
    ensures r.Some? <==> AllScored(c, segments, score)
    ensures r.Some? ==> r.value == EntryFor(c, segments, score)
  {
    var best := BestMatch(c, segments, score);
    if best.None? {
      return None;
    }
    var (bestScore, bestText) := best.value;
    return Some(Entry(ClauseId(c), Title(c), Classify(bestScore), Round2(bestScore), bestText));
  }

  /** generate_gap_report, with `score` the pair scorer it calls (PairScore in the application). */
  method GenerateGapReport(clauses: seq<Record>, segments: seq<Text.Segment>, score: Scorer)
    returns (r: Result<seq<Entry>, ReportError>)
    ensures r.Ok? <==> forall i :: 0 <= i < |clauses| ==> AllScored(clauses[i], segments, score)
    ensures r.Ok? ==> |r.value| == |clauses|
    ensures r.Ok? ==> forall i :: 0 <= i < |clauses| ==> r.value[i] == EntryFor(clauses[i], segments, score)
  {
    var report: seq<Entry> := [];
    for i := 0 to |clauses|
      invariant |report| == i
      invariant forall k :: 0 <= k < i ==>
        AllScored(clauses[k], segments, score) && report[k] == EntryFor(clauses[k], segments, score)
    {
      var entry := ClauseEntry(clauses[i], segments, score);
      if entry.None? {
        return Err(ScoreUndefined);
      }
      report := report + [entry.value];
    }
    return Ok(report);
  }

  /** With no segments (an empty or all-short document) every clause is Missing, 0, with no text. */
  lemma NoSegmentsMeansMissing(c: Record, score: Scorer)
    ensures AllScored(c, [], score)
    ensures EntryFor(c, [], score) == Entry(ClauseId(c), Title(c), Missing, 0.0, "")
  {
  }

  /** With scores in [0, 1] the reported score is in [0, 1]. */
  lemma EntryScoreInRange(c: Record, segs: seq<Text.Segment>, score: Scorer)
    requires AllScored(c, segs, score) && ScorerInRange(score)
    ensures 0.0 <= EntryFor(c, segs, score).score <= 1.0
  {
    var ss := ScoresOf(c, segs, score);
    var best := BestOf(ss);
    BestOfIsMaximum(ss);
    if best != 0.0 {
      var i :| 0 <= i < |ss| && ss[i] == best;
      assert score(c, segs[i].normalized) == Some(ss[i]);
    }
  }

  /**
   * A clause with a segment holding at least half of its keywords is
   * reported Covered, whatever the similarity and whether or not the clause
   * has a requirement.
   */
  lemma KeywordMatchMakesEntryCovered(c: Record, segs: seq<Text.Segment>, sim: Similarity, j: int)
    requires AllScored(c, segs, PairScore(sim)) && ClauseKeywords(c).Some?
    requires 0 <= j < |segs| && KeywordFraction(ClauseKeywords(c).value, segs[j].normalized) >= 0.5
    ensures EntryFor(c, segs, PairScore(sim)).coverage == Covered
  {
    var ss := ScoresOf(c, segs, PairScore(sim));
    BestOfIsMaximum(ss);
    assert ss[j] == 0.8;
    assert BestOf(ss) >= 0.8;
  }

  /**
   * Coverage is decided before rounding: 0.596 is Partial although it is
   * reported as 0.6, which would be Covered. Ties round to the even hundredth.
   */
  lemma CoverageUsesUnroundedScore()
    ensures Classify(0.596) == Partial
    ensures Round2(0.596) == 0.6 && Classify(Round2(0.596)) == Covered
    ensures Round2(0.125) == 0.12
  {
    assert (0.596 * 100.0).Floor == 59;
    assert (0.125 * 100.0).Floor == 12;
  }
}
