/**
 * The clause preparer (app/nlp/clause_preprocessing.py): every catalogue
 * record gets a normalized requirement text and normalized keywords; all its
 * other fields pass through unchanged.
 */
module ClausePrep {
  import opened Wrappers
  import opened Values
  import opened Text

  /** The fields tried, in this order, for the requirement text. */
  const RequirementFields: seq<string> := ["requirement_text", "control", "description"]
  const KeywordsField: string := "keywords"
  const NormalizedRequirementField: string := "normalized_requirement"
  const NormalizedKeywordsField: string := "normalized_keywords"

  /** The exceptions preparing a record can raise. */
  datatype PrepError =
    | RequirementNotText   // the chosen requirement value has no `lower` (AttributeError)
    | KeywordsNotIterable  // `keywords` is null, a boolean or a number (TypeError)
    | KeywordNotText       // a keyword has no `lower` (AttributeError)

  /** The requirement value: the first truthy field among RequirementFields, else "". */
  function RequirementValue(c: Record): (v: Value)
    ensures Truthy(Get(c, "requirement_text")) ==> v == Get(c, "requirement_text")
    ensures !Truthy(Get(c, "requirement_text")) && Truthy(Get(c, "control")) ==> v == Get(c, "control")
    ensures !Truthy(Get(c, "requirement_text")) && !Truthy(Get(c, "control")) && Truthy(Get(c, "description"))
      ==> v == Get(c, "description")
    ensures !Truthy(Get(c, "requirement_text")) && !Truthy(Get(c, "control")) && !Truthy(Get(c, "description"))
      ==> v == Str("")
  {
    var v := FirstTruthy(c, RequirementFields, Str(""));
    assert RequirementFields[0] == "requirement_text" && RequirementFields[1] == "control";
    assert RequirementFields[2] == "description";
    v
  }

  /** The values iterated as keywords: `c.get("keywords", [])`. */
  function KeywordValues(c: Record): Option<seq<Value>> {
    Elements(GetOr(c, KeywordsField, Arr([])))
  }

  /** `[normalize_text(k) for k in items]`, failing at the first keyword that is not text. */
  function NormalizeEach(items: seq<Value>): (r: Result<seq<string>, PrepError>)
    ensures r.Ok? <==> forall i :: 0 <= i < |items| ==> items[i].Str?
    ensures r.Ok? ==> |r.value| == |items| && forall i :: 0 <= i < |items| ==> r.value[i] == Normalize(items[i].s)
    ensures r.Err? ==> r.error == KeywordNotText
  {
    if items == [] then Ok([])
    else if !items[0].Str? then Err(KeywordNotText)
    else
      match NormalizeEach(items[1..])
      case Err(e) => Err(e)
      case Ok(rest) => Ok([Normalize(items[0].s)] + rest)
  }

  /** A record as the matcher reads it: a normalized requirement text and a list of normalized keywords. */
  predicate Prepared(c: Record) {
    && NormalizedRequirementField in c
    && c[NormalizedRequirementField].Str?
    && NormalizedKeywordsField in c
    && c[NormalizedKeywordsField].Arr?
    && forall i :: 0 <= i < |c[NormalizedKeywordsField].items| ==> c[NormalizedKeywordsField].items[i].Str?
  }

  function Requirement(c: Record): string
    requires Prepared(c)
  {
    c[NormalizedRequirementField].s
  }

  function Keywords(c: Record): (kws: seq<string>)
    requires Prepared(c)
    ensures |kws| == |c[NormalizedKeywordsField].items|
    ensures forall i :: 0 <= i < |kws| ==> c[NormalizedKeywordsField].items[i] == Str(kws[i])
  {
    var items := c[NormalizedKeywordsField].items;
    seq(|items|, i requires 0 <= i < |items| => items[i].s)
  }

  /** One iteration of preprocess_clauses: `{**c, "normalized_requirement": ..., "normalized_keywords": [...]}`. */
  function PrepareClause(c: Record): (r: Result<Record, PrepError>)
    ensures r.Ok? ==> Prepared(r.value)
  {
    var text := RequirementValue(c);
    if !text.Str? then Err(RequirementNotText)
    else
      match KeywordValues(c)
      case None => Err(KeywordsNotIterable)
      case Some(items) =>
        match NormalizeEach(items)
        case Err(e) => Err(e)
        case Ok(kws) =>
          var normalized := seq(|kws|, i requires 0 <= i < |kws| => Str(kws[i]));
          Ok(c[NormalizedRequirementField := Str(Normalize(text.s))][NormalizedKeywordsField := Arr(normalized)])
  }

  /**
   * Preparing a record succeeds exactly when the requirement is text and the
   * keywords are an iterable of text, failing with the first error Python
   * raises otherwise; it adds the two normalized fields and keeps every
   * other field.
   */
  lemma PrepareClauseMeaning(c: Record)
    ensures PrepareClause(c).Ok? <==>
      && RequirementValue(c).Str?
      && KeywordValues(c).Some?
      && forall i :: 0 <= i < |KeywordValues(c).value| ==> KeywordValues(c).value[i].Str?
    ensures PrepareClause(c).Err? && !RequirementValue(c).Str? ==> PrepareClause(c).error == RequirementNotText
    ensures PrepareClause(c).Err? && RequirementValue(c).Str? && KeywordValues(c).None? ==>
      PrepareClause(c).error == KeywordsNotIterable
    ensures PrepareClause(c).Err? && RequirementValue(c).Str? && KeywordValues(c).Some? ==>
      PrepareClause(c).error == KeywordNotText
    ensures PrepareClause(c).Ok? ==> PrepareClause(c).value.Keys == c.Keys + {NormalizedRequirementField, NormalizedKeywordsField}
    ensures PrepareClause(c).Ok? ==> forall k :: k in c && k != NormalizedRequirementField && k != NormalizedKeywordsField ==>
      PrepareClause(c).value[k] == c[k]
    ensures PrepareClause(c).Ok? ==> Requirement(PrepareClause(c).value) == Normalize(RequirementValue(c).s)
    ensures PrepareClause(c).Ok? ==> |Keywords(PrepareClause(c).value)| == |KeywordValues(c).value|
    ensures PrepareClause(c).Ok? ==> forall i :: 0 <= i < |Keywords(PrepareClause(c).value)| ==>
      Keywords(PrepareClause(c).value)[i] == Normalize(KeywordValues(c).value[i].s)
  {
  }

  /** preprocess_clauses */
  method PreprocessClauses(clauses: seq<Record>) returns (r: Result<seq<Record>, PrepError>)
    ensures r.Ok? <==> forall i :: 0 <= i < |clauses| ==> PrepareClause(clauses[i]).Ok?
    ensures r.Ok? ==> |r.value| == |clauses|
    ensures r.Ok? ==> forall i :: 0 <= i < |clauses| ==> r.value[i] == PrepareClause(clauses[i]).value
    ensures r.Err? ==> exists i ::
      && 0 <= i < |clauses|
      && PrepareClause(clauses[i]) == Err(r.error)
      && forall j :: 0 <= j < i ==> PrepareClause(clauses[j]).Ok?
  {
    var processed: seq<Record> := [];
    for i := 0 to |clauses|
      invariant |processed| == i
      invariant forall j :: 0 <= j < i ==> PrepareClause(clauses[j]).Ok? && processed[j] == PrepareClause(clauses[j]).value
    {
      var p := PrepareClause(clauses[i]);
      if p.Err? {
        return Err(p.error);
      }
      processed := processed + [p.value];
    }
    return Ok(processed);
  }

  /**
   * Missing fields degrade to empty values: a record without `keywords`
   * gets no normalized keywords, and one without any requirement field gets
   * the empty requirement; neither makes preparation fail.
   */
  lemma AbsentFieldsDegradeToEmpty(c: Record)
    requires KeywordsField !in c
    requires forall f :: f in RequirementFields ==> !Truthy(Get(c, f))
    ensures PrepareClause(c).Ok?
    ensures Requirement(PrepareClause(c).value) == ""
    ensures Keywords(PrepareClause(c).value) == []
  {
    assert RequirementFields[0] == "requirement_text" && RequirementFields[1] == "control";
    assert RequirementFields[2] == "description";
    assert Normalize("") == "";
    PrepareClauseMeaning(c);
  }
}
