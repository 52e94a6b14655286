# Policy gap analyzer: the matching and gap-classification engine

A Dafny model of the policy gap analyzer's engine, which checks a policy document against a catalogue of required clauses. It covers four sequential steps:

1. **Text** (`text.dfy`, `app/nlp/preprocessing.py`)
   - `normalize_text` lower-cases the text, blanks out everything except `[a-z0-9]` and whitespace, collapses whitespace runs and trims.
   - `segment_policy` splits the document at `.`, `!` or `?` followed by whitespace. It keeps each piece of at least 25 characters, with its split index and its normal form.
2. **ClausePrep** (`clause_prep.dfy`, `app/nlp/clause_preprocessing.py`)
   - `preprocess_clauses` gives every catalogue record a normalized requirement text and normalized keywords.
   - The requirement text is the first truthy field among `requirement_text`, `control` and `description`.
   - Every other field passes through unchanged.
   - Records are JSON objects (`Values.Value`, `Values.Record`), and Python truthiness and `a or b or …` chains are modelled in `values.dfy`.
3. **Matching** (`matching.dfy`, `app/nlp/matching.py`)
   - `keyword_score` is the fraction of normalized keywords that occur as whole words (`\b…\b`) in a segment.
   - `score` returns exactly 0.8 once that fraction reaches 0.5. Otherwise it is the mean of the fraction and a TF-IDF cosine similarity.
   - `classify` maps a score to Covered (≥ 0.6), Partial (≥ 0.25) or Missing.
4. **GapReport** (`gap_report.dfy`, `app/reporting/gap_report.py`)
   - `generate_gap_report` scans the segments for every clause, keeping the best score (a start of 0, replaced only on a strictly greater score) and that segment's text.
   - It emits one entry per clause: identifier, title, coverage of the unrounded best, the best rounded to two decimals, and the matched text.

**The similarity oracle.** The TF-IDF similarity is foreign library code. It is passed in as a function `sim: (string, string) -> Option<real>`, where `None` stands for the library rejecting a pair. Wherever a bound is needed it is assumed through the predicate `Matching.InRange(sim)`.

**The pair scorer.** `generate_gap_report` calls matching's `score` on every clause–segment pair. The report methods take that call as a parameter `score: (Record, string) -> Option<real>` and are proved for any such scorer. The application's scorer is `GapReport.PairScore(sim)`, which is `Matching.ClauseScore`. That function reads the record the way `score` does: the keywords first, and the requirement only when fewer than half the keywords are found. Results that depend on what it computes (`KeywordMatchMakesEntryCovered`, `PairScoreInRange`) are stated about it.

**The loops.** `segment_policy`, `keyword_score`, `preprocess_clauses` and `generate_gap_report` are loops in the source. Each is a method here, proved equal to a specification function, and the properties are lemmas about those functions.

## Model

| member | source | states |
|---|---|---|
| Text.Normalize | app/nlp/preprocessing.py:6-10 | the result holds only `a`–`z`, `0`–`9` and single spaces, with no space at either end |
| Text.NormalizeFixesCanonical | app/nlp/preprocessing.py:6-10 | a string already in normal form is returned unchanged |
| Text.NormalizeIdempotent | app/nlp/preprocessing.py:6-10 | normalizing twice is normalizing once |
| Text.NormalizeKeepsContent | app/nlp/preprocessing.py:7-10 | the letters and digits of the result are those of the input, lower-cased and in order: none lost, none invented |
| Text.NormalizeKeepsWords | app/nlp/preprocessing.py:6-10 | normalizing keeps the word sequence: the maximal runs of letters and digits, lower-cased, in order |
| Text.NormalizeIsJoinedWords | app/nlp/preprocessing.py:6-10 | the result is exactly the input's words (maximal runs of letters and digits, lower-cased) joined by single spaces |
| Text.NormalizeEmptyIff | app/nlp/preprocessing.py:6-10 | the result is "" exactly when the input has no letter or digit (empty, whitespace-only, punctuation-only), and it never fails |
| Text.CollapseShape | app/nlp/preprocessing.py:9 | collapsing whitespace keeps the character set and leaves no two consecutive spaces |
| Text.CollapseSquashesRuns | app/nlp/preprocessing.py:9 | the scanning collapse equals the run-by-run reading: each maximal whitespace run becomes exactly one space and every other character is copied |
| Text.CollapseKeepsWords | app/nlp/preprocessing.py:9 | collapsing whitespace does not change the word sequence |
| Text.StripShape | app/nlp/preprocessing.py:10 | trimming leaves no leading or trailing space and keeps the other properties |
| Text.SplitOnePieceIff | app/nlp/preprocessing.py:15 | the split yields the text itself as its only piece exactly when the text has no `[.!?]` followed by whitespace |
| Text.SplitPiecesHaveNoBreak | app/nlp/preprocessing.py:15 | no piece of the split still contains a sentence break |
| Text.SplitRoundTrip | app/nlp/preprocessing.py:15 | `SplitSentences` loses nothing: the text is its pieces joined by the removed separators, one fewer separator than pieces; each separator is a `[.!?]` and a whole whitespace run, and no piece after a separator starts with whitespace |
| Text.SplitPiecesAreExcerpts | app/nlp/preprocessing.py:15 | every piece of the split is a contiguous slice of the text |
| Text.SegmentPolicy | app/nlp/preprocessing.py:13-29 | the loop returns the segments of the specification function `Segments` |
| Text.SegmentsAreLongPieces | app/nlp/preprocessing.py:3-27 | each segment is piece number `id` of the split, of length at least 25, with its normal form; ids strictly increase and are not renumbered; every long piece is kept; at most one segment per piece |
| Text.SegmentTextsAreExcerpts | app/nlp/preprocessing.py:15-27 | every segment's text is a contiguous slice of the document, copied unchanged |
| Text.SegmentsEmptyIff | app/nlp/preprocessing.py:19-21 | there are no segments exactly when every piece is shorter than 25 |
| Text.SegmentsWithoutBreak | app/nlp/preprocessing.py:15-21 | text without a sentence break gives at most one segment, with id 0 and the whole text |
| Text.LongBlankTextIsOneSegment | app/nlp/preprocessing.py:19-27 | a whitespace-only text of 25 or more characters is kept as one segment with normal form "" |
| Values.FirstTruthy | app/nlp/clause_preprocessing.py:11-16 | an `or` chain of `get`s yields the value of the first key whose value is truthy, else the fallback |
| ClausePrep.RequirementValue | app/nlp/clause_preprocessing.py:11-16 | the requirement is `requirement_text` if truthy, else `control`, else `description`, else "" |
| ClausePrep.NormalizeEach | app/nlp/clause_preprocessing.py:21-23 | the keywords are normalized element by element, same length and order; a non-text keyword is an error |
| ClausePrep.PrepareClause | app/nlp/clause_preprocessing.py:11-24 | a successful preparation yields a record the matcher can read: a text requirement and a list of text keywords |
| ClausePrep.PrepareClauseMeaning | app/nlp/clause_preprocessing.py:11-24 | succeeds exactly when the requirement is text and the keywords are an iterable of text, with the error raised first otherwise; adds the two normalized fields (the normalized requirement, the keywords normalized one by one in order) and keeps every other key and value |
| ClausePrep.PreprocessClauses | app/nlp/clause_preprocessing.py:4-26 | succeeds exactly when every record can be prepared; the output has one prepared record per input record, in order; on failure it reports the error of the first failing record |
| ClausePrep.AbsentFieldsDegradeToEmpty | app/nlp/clause_preprocessing.py:11-23 | a record without `keywords` and without requirement fields still prepares, with requirement "" and no keywords |
| Matching.WholeWordIff | app/nlp/matching.py:17 | `ContainsWord`, the `\b{kw}\b` search, finds a keyword that starts and ends with a word character exactly where it occurs with no letter, digit or underscore right before or after it |
| Matching.ClauseKeywords | app/nlp/matching.py:9-12 | the keywords are read from `normalized_keywords`: an absent key fails, a falsy value gives none, otherwise the items are read in order and the result is defined exactly when the value is iterable and every item is text; on a prepared record they are its normalized keywords |
| Matching.MatchCount | app/nlp/matching.py:14-18 | the number of keywords found never exceeds the number of keywords |
| Matching.KeywordFraction | app/nlp/matching.py:9-20 | the keyword score lies in [0, 1] and is 0 for an empty keyword list |
| Matching.KeywordScore | app/nlp/matching.py:7-20 | the loop returns the keyword fraction |
| Matching.MatchCountIsFoundIndices | app/nlp/matching.py:14-20 | the count is the number of keyword positions (duplicates separately) found whole-word in the segment |
| Matching.KeywordFractionExtremes | app/nlp/matching.py:14-20 | the score is 1 exactly when every keyword is found and 0 exactly when none is |
| Matching.EmptyKeywordMatchesAnyWord | app/nlp/matching.py:17 | an empty keyword is found exactly in segments holding a word character |
| Matching.SubstringIsNotAWord | app/nlp/matching.py:17 | "log" is not found in "user login required" but is found in "audit log kept" |
| Matching.EncryptedIsNotEncryption | app/nlp/matching.py:17 | "encryption" is not a whole word of "all data at rest is encrypted using aes256", so that keyword score is 0 |
| Matching.Score | app/nlp/matching.py:33-46 | a keyword score ≥ 0.5 gives exactly 0.8 whatever the similarity; below it, a score exists exactly when the similarity does; with an in-range similarity the score is in [0, 1], at least half the keyword score, and below 0.75 |
| Matching.ClauseScore | app/nlp/matching.py:7-46 | `score` on a clause record: 0.8 once half the keywords are found, whether or not the record has a requirement; below that, a score exists exactly when the requirement is present as text and the similarity is defined; unreadable keywords give no score; in [0, 1] for an in-range similarity |
| Matching.ClauseScoreOfPrepared | app/nlp/matching.py:33-46 | on a prepared record `score` is Score on its normalized keywords and requirement |
| Matching.KeywordsSufficeWithoutRequirement | app/nlp/matching.py:35-39 | a record with the keyword "x" and no requirement scores 0.8 against "x": the requirement is not read |
| Matching.KeywordMajorityIsCovered | app/nlp/matching.py:38-56 | a keyword score ≥ 0.5 always ends up Covered |
| Matching.EncryptionKeywordScenario | app/nlp/matching.py:33-39 | a segment that uses the keyword as a word scores 1 on keywords and 0.8 overall |
| Matching.Classify | app/nlp/matching.py:50-56 | Covered exactly from 0.6, Partial exactly on [0.25, 0.6), Missing exactly below 0.25 |
| Matching.ClassifyMonotone | app/nlp/matching.py:52-56 | a higher score never lands in a lower band (Missing < Partial < Covered) |
| Matching.ClassifyBoundaries | app/nlp/matching.py:52-56 | 0.6 is Covered, 0.599 Partial, 0.25 Partial, 0.249 Missing |
| GapReport.BestOfIsMaximum | app/reporting/gap_report.py:10-18 | the running best is the maximum of 0 and all segment scores |
| GapReport.WinnerOfIsEarliestMaximum | app/reporting/gap_report.py:11-18 | no winner exactly when no score is above 0; otherwise the winner holds the best score and beats every earlier segment strictly (earliest maximum wins ties) |
| GapReport.WinnerIsEarliestMaximum | app/reporting/gap_report.py:16-18 | the earliest position of the maximum is the winner |
| GapReport.ClauseId | app/reporting/gap_report.py:21 | `clause_id` if truthy, else `id` as it is |
| GapReport.Title | app/reporting/gap_report.py:22 | `title` if truthy, else `control` as it is |
| GapReport.Round2 | app/reporting/gap_report.py:24 | the rounded score is a whole number of hundredths within 0.005 of the exact one; a tie goes to the even hundredth; hundredths are unchanged and [0, 1] is kept |
| GapReport.Round2IsNearest | app/reporting/gap_report.py:24 | no hundredth is closer to the exact score than the rounded one |
| GapReport.EntryForMeaning | app/reporting/gap_report.py:10-26 | with no segment scoring above 0 the entry is Missing, 0, ""; otherwise the earliest best segment gives the text, the rounded score and, unrounded, the coverage; the text is always "" or some segment's text |
| GapReport.PairScoreInRange | app/reporting/gap_report.py:14 | the scorer the report calls gives only scores in [0, 1] when the similarity does |
| GapReport.BestMatch | app/reporting/gap_report.py:10-18 | the inner loop returns the maximum of 0 and the segment scores and the text of the earliest segment reaching it, and fails exactly when some clause–segment pair has no score |
| GapReport.ClauseEntry | app/reporting/gap_report.py:10-26 | one clause's entry exists exactly when all its pairs are scored, and is the entry described by EntryForMeaning |
| GapReport.GenerateGapReport | app/reporting/gap_report.py:4-28 | for any pair scorer: succeeds exactly when every clause–segment pair is scored; one entry per clause, in clause order, each the clause's entry |
| GapReport.NoSegmentsMeansMissing | app/reporting/gap_report.py:10-26 | with no segments every clause is scored vacuously and is Missing with score 0 and no text, whatever the scorer |
| GapReport.EntryScoreInRange | app/reporting/gap_report.py:24 | with scores in [0, 1] the reported score is in [0, 1] |
| GapReport.KeywordMatchMakesEntryCovered | app/reporting/gap_report.py:13-23 | a clause with readable keywords and some segment holding at least half of them as whole words is reported Covered, whatever the similarity and whether or not it has a requirement |
| GapReport.CoverageUsesUnroundedScore | app/reporting/gap_report.py:23-24 | coverage is decided before rounding (0.596 is Partial though reported as 0.6); ties round to the even hundredth |

## Left out

- The body of `tfidf_score` (app/nlp/matching.py:24-29) is not modelled: scikit-learn's vectorizer, its English stop-word list and the cosine similarity are floating-point library code. The similarity is a function parameter. Its range [0, 1] is a hypothesis (`InRange`), and it is not assumed total.
- GapReport.Round2: it rounds the exact best score half-to-even at two decimals. Python's `round` on the binary float can differ at ties that the float does not represent exactly.
- Floating point in general: all scores are exact reals.
- Unicode: text is ASCII.
  - `str.lower` maps only `A`–`Z`.
  - `\s` and `str.strip` use the ASCII characters for which `str.isspace` holds: space, tab, newline, vertical tab, form feed, carriage return and the separators 0x1C–0x1F.
  - `\w`/`\b` use `[A-Za-z0-9_]`.
- Matching.ContainsWord reads the keyword literally. The source pastes it unescaped into the pattern, which only matters for keywords with regex syntax. Keywords produced by the clause preparer hold only `[a-z0-9 ]`.
- Matching.ClauseScore: a keyword that is not text is formatted with `str()` into the pattern by the source; the model gives no score instead. A requirement that is needed but is not text also gives no score, since what the TF-IDF library does with a non-text document is not modelled.
- GapReport.GenerateGapReport: wherever `score` raises (for example a `KeyError` on a record without `normalized_keywords`), the report fails with `ScoreUndefined`. The kind of exception is not kept.
- Catalogue elements that are not JSON objects: the source calls `c.get` on every element and raises `AttributeError` on a list, string, number or null (app/nlp/clause_preprocessing.py:12, app/reporting/gap_report.py:21). Here the catalogue is a sequence of records, so that failure cannot be expressed.
- Repeated keys in a JSON object: `json.load` keeps only the last one, and `Values.Value` does not enforce distinct member names. Iterating an object (`Values.Elements`) is exact only for objects as `json.load` produces them.
- The rest of the application is not part of this model: reading the catalogue and PDF files, the web front end, the LLM revision service and the command-line wrapper. They are I/O, presentation and foreign calls.
- Python's exceptions are modelled as `Err`/`None` results that carry which error occurred (ClausePrep) or only that one occurred (GapReport). Tracebacks are not modelled.

## Behaviour worth knowing

The model follows the code in two places where a natural reading of the intended behaviour would differ:

- **Long whitespace-only documents.** A document consisting only of whitespace does not yield "no segments" when it is 25 or more characters long. The length filter looks at the raw piece, so the whole text is one segment whose normal form is "" (`Text.LongBlankTextIsOneSegment`).
- **Whole-word matching.** Keyword matching is whole-word, so a keyword such as "encryption" scores 0 against a segment that only says "encrypted" (`Matching.EncryptedIsNotEncryption`).

An empty normalized keyword (one made only of punctuation) matches every segment that contains a letter, digit or underscore, because `\b\b` matches at any word boundary (`Matching.EmptyKeywordMatchesAnyWord`).
