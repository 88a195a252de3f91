/** Checking every marker of an answer against the database and the retrieved sources. */
module Validation {
  import opened Wrappers
  import opened Text
  import opened Markers
  import opened LegalText
  import opened Sources
  import opened Segments
  import opened Coverage
  import opened Effectiveness

  datatype CitationError = InvalidRequest

  datatype Report = Report(
    citations: seq<ValidatedCitation>,
    validCount: nat,
    invalidCount: nat,
    unsupportedLegalConclusion: bool,
    semanticSupportVerified: bool)

  /** What checking depends on: rows by citation id, retrieved ids, and the date of the case. */
  datatype Context = Context(
    database: map<string, LegalSource>,
    missingReason: string -> CitationInvalidReason,
    allowed: set<string>,
    caseDate: Option<string>,
    includeExpired: bool)

  function Check(citation: ParsedCitation, context: Context): ValidatedCitation {
    var id := citation.sourceId;
    var (status, reason, source) :=
      if !citation.validSyntax then (Invalid, Some(InvalidSyntax), None)
      else if id !in context.database then (Invalid, Some(context.missingReason(id)), None)
      else if id !in context.allowed then (Invalid, Some(NotInContext), Some(context.database[id]))
      else if !IsEffectiveOn(context.database[id], context.caseDate, context.includeExpired) then
        (Invalid, Some(DateOutOfRange), Some(context.database[id]))
      else (Valid, None, Some(context.database[id]));
    ValidatedCitation(citation.rawMarker, id, status, reason, source)
  }

  function CheckAll(citations: seq<ParsedCitation>, context: Context): (r: seq<ValidatedCitation>)
    ensures |r| == |citations|
    ensures forall k :: 0 <= k < |r| ==> r[k] == Check(citations[k], context)
  {
    seq(|citations|, k requires 0 <= k < |citations| => Check(citations[k], context))
  }

  function CountStatus(citations: seq<ValidatedCitation>, status: CitationStatus): nat {
    if citations == [] then 0
    else (if citations[0].status == status then 1 else 0) + CountStatus(citations[1..], status)
  }

  predicate IsValidCaseDate(caseDate: Option<string>) {
    caseDate.Some? ==> IsIsoCalendarDate(caseDate.value)
  }

  /**
   The verdict on one marker: its syntax first, then whether the database has the
   row, then whether the row was retrieved, then whether it is in effect. Only a
   marker that fails none of these is valid, and a row that exists is returned.
   */
  ghost predicate IsVerdict(
    v: ValidatedCitation,
    citation: ParsedCitation,
    allowedSources: seq<LegalSource>,
    database: map<string, LegalSource>,
    missingReason: string -> CitationInvalidReason,
    caseDate: Option<string>,
    includeExpired: bool)
  {
    var id := citation.sourceId;
    var retrieved := exists s :: s in allowedSources && s.sourceId == id;
    && v.rawMarker == citation.rawMarker && v.sourceId == id
    && (v.status == Valid <==> v.reason == None)
    && (!citation.validSyntax ==> v.reason == Some(InvalidSyntax))
    && (citation.validSyntax && id !in database ==> v.reason == Some(missingReason(id)))
    && (citation.validSyntax && id in database ==>
      && (v.reason == Some(NotInContext) <==> !retrieved)
      && (v.reason == Some(DateOutOfRange) <==>
        retrieved && !IsEffectiveOn(database[id], caseDate, includeExpired))
      && (v.reason == None <==> retrieved && IsEffectiveOn(database[id], caseDate, includeExpired)))
    && v.source == if citation.validSyntax && id in database then Some(database[id]) else None
  }

  method ValidateAnswerCitations(
    lex: Lexicon,
    answer: string,
    allowedSources: seq<LegalSource>,
    database: map<string, LegalSource>,
    missingReason: string -> CitationInvalidReason,
    caseDate: Option<string>,
    includeExpired: bool) returns (r: Result<Report, CitationError>)
    ensures r.Err? <==> !IsValidCaseDate(caseDate)
    ensures r.Ok? ==>
      var allowed := set s | s in allowedSources :: s.sourceId;
      var context := Context(database, missingReason, allowed, caseDate, includeExpired);
      var checked := CheckAll(ParsedMarkers(answer), context);
      r.value == Report(
        checked,
        CountStatus(checked, Valid),
        CountStatus(checked, Invalid),
        HasUnsupportedLegalConclusion(lex, answer, ParsedMarkers(answer), checked),
        false)
    ensures r.Ok? ==>
      && |r.value.citations| == |ParsedMarkers(answer)|
      && forall k :: 0 <= k < |r.value.citations| ==> IsVerdict(
           r.value.citations[k], ParsedMarkers(answer)[k], allowedSources, database, missingReason, caseDate,
           includeExpired)
  {
    hide IsVerdict, HasUnsupportedLegalConclusion, ParsedMarkers, IsIsoCalendarDate, Check, CountStatus, IsEffectiveOn;
    if !IsValidCaseDate(caseDate) { return Err(InvalidRequest); }
    var parsed := ParseSourceMarkers(answer);
    var allowed := set s | s in allowedSources :: s.sourceId;
    var context := Context(database, missingReason, allowed, caseDate, includeExpired);
    var citations := [];
    var k := 0;
    while k < |parsed|
      invariant k == |citations| <= |parsed|
      invariant forall j :: 0 <= j < k ==> citations[j] == Check(parsed[j], context)
    {
      citations := citations + [Check(parsed[k], context)];
      k := k + 1;
    }
    assert citations == CheckAll(parsed, context);
    forall j | 0 <= j < |citations|
      ensures IsVerdict(citations[j], parsed[j], allowedSources, database, missingReason, caseDate, includeExpired)
    {
      CheckIsVerdict(parsed[j], allowedSources, database, missingReason, caseDate, includeExpired);
    }
    return Ok(Report(
      citations,
      CountStatus(citations, Valid),
      CountStatus(citations, Invalid),
      HasUnsupportedLegalConclusion(lex, answer, parsed, citations),
      false));
  }

  lemma CheckIsVerdict(
    citation: ParsedCitation,
    allowedSources: seq<LegalSource>,
    database: map<string, LegalSource>,
    missingReason: string -> CitationInvalidReason,
    caseDate: Option<string>,
    includeExpired: bool)
    ensures var allowed := set s | s in allowedSources :: s.sourceId;
      var context := Context(database, missingReason, allowed, caseDate, includeExpired);
      IsVerdict(
        Check(citation, context), citation, allowedSources, database, missingReason, caseDate, includeExpired)
  {
    hide IsEffectiveOn;
  }

  // ----- when everything checks out -----

  /** The marker names, in valid syntax, a retrieved row of the database that is in effect. */
  predicate Checks(citation: ParsedCitation, context: Context) {
    && citation.validSyntax
    && citation.sourceId in context.database
    && citation.sourceId in context.allowed
    && IsEffectiveOn(context.database[citation.sourceId], context.caseDate, context.includeExpired)
  }

  lemma {:induction false} CountsAddUp(citations: seq<ValidatedCitation>)
    ensures CountStatus(citations, Valid) + CountStatus(citations, Invalid) == |citations|
    ensures CountStatus(citations, Invalid) == 0 <==> forall k :: 0 <= k < |citations| ==> citations[k].status == Valid
    decreases |citations|
  {
    if citations != [] {
      CountsAddUp(citations[1..]);
      assert citations == [citations[0]] + citations[1..];
      assert forall k :: 0 <= k < |citations[1..]| ==> citations[1..][k] == citations[k + 1];
      assert forall k :: 0 < k < |citations| ==> citations[k] == citations[1..][k - 1];
    }
  }

  /** No citation is counted invalid exactly when every marker checks out. */
  lemma NoInvalidMeansAllCheck(citations: seq<ParsedCitation>, context: Context)
    ensures var checked := CheckAll(citations, context);
      && CountStatus(checked, Valid) + CountStatus(checked, Invalid) == |citations|
      && (CountStatus(checked, Invalid) == 0 <==> forall k :: 0 <= k < |citations| ==> Checks(citations[k], context))
  {
    CountsAddUp(CheckAll(citations, context));
    hide IsEffectiveOn;
    assert forall k :: 0 <= k < |citations| ==>
      (Check(citations[k], context).status == Valid <==> Checks(citations[k], context));
  }

  /**
   Retrieval implies validation: an answer that cites, in valid syntax, only
   sources the retrieval query admitted for the same date has no invalid citation.
   */
  lemma RetrievedCitationsAreValid(answer: string, retrieved: seq<LegalSource>, context: Context)
    requires forall s :: s in retrieved ==>
      && QueryAdmits(s, context.caseDate, context.includeExpired)
      && s.sourceId in context.database && context.database[s.sourceId] == s
    requires context.allowed == set s | s in retrieved :: s.sourceId
    requires forall c :: c in ParsedMarkers(answer) ==> IsValidSourceId(c.sourceId) && c.sourceId in context.allowed
    ensures CountStatus(CheckAll(ParsedMarkers(answer), context), Invalid) == 0
    ensures CountStatus(CheckAll(ParsedMarkers(answer), context), Valid) == |MarkerSpans(answer, 0)|
  {
    hide IsValidSourceId, IsEffectiveOn, QueryAdmits, MarkerId, NamedBy;
    var parsed := ParsedMarkers(answer);
    SpansInBounds(answer, 0);
    ReportsAt(answer, MarkerSpans(answer, 0), |MarkerSpans(answer, 0)|);
    forall k | 0 <= k < |parsed| ensures Checks(parsed[k], context) {
      assert parsed[k] in parsed;
      var s :| s in retrieved && s.sourceId == parsed[k].sourceId;
      QueryAdmitsExactly(s, context.caseDate, context.includeExpired);
    }
    NoInvalidMeansAllCheck(parsed, context);
  }

  // ----- what a clean report promises about every word -----

  /** The text up to `i` of its segment is followed by a marker that checks out. */
  ghost predicate IsSourcedBy(answer: string, context: Context, s: Span, i: nat, c: ParsedCitation) {
    c in ParsedMarkers(answer) && Checks(c, context) && s.start <= c.startIndex && i < c.endIndex <= s.end
  }

  lemma {:induction false} ValidSpanChecks(
    parsed: seq<ParsedCitation>, context: Context, m: Span)
    returns (c: ParsedCitation)
    requires m in ValidSpans(parsed, CheckAll(parsed, context))
    ensures c in parsed && Checks(c, context) && m == Span(c.startIndex, c.endIndex)
    decreases |parsed|
  {
    hide IsEffectiveOn;
    var checked := CheckAll(parsed, context);
    if checked[0].status.Valid? && m == Span(parsed[0].startIndex, parsed[0].endIndex) {
      c := parsed[0];
    } else {
      assert checked[1..] == CheckAll(parsed[1..], context);
      c := ValidSpanChecks(parsed[1..], context, m);
    }
  }

  /**
   A report that raises no unsupported conclusion: every alphanumeric character
   of the answer is in a marker, in a dropped connector, in front of a marker of
   its own segment that names a retrieved row in effect on the date of the case,
   or behind all of those in a trailing refusal or heading.
   */
  lemma CleanReportSourcesEveryWord(lex: Lexicon, answer: string, context: Context, i: nat)
    requires !HasUnsupportedLegalConclusion(
      lex, answer, ParsedMarkers(answer), CheckAll(ParsedMarkers(answer), context))
    requires i < |answer| && lex.alnum(answer[i])
    ensures var segments := LegalConclusionSegments(lex, answer);
      var valid := ValidSpans(ParsedMarkers(answer), CheckAll(ParsedMarkers(answer), context));
      || InMarker(answer, i)
      || InDroppedConnector(lex, answer, segments, i)
      || exists s :: s in segments && s.start <= i < s.end <= |answer|
           && (|| (exists c :: IsSourcedBy(answer, context, s, i, c))
               || (TrailingStart(valid, s.start, s.end) <= i && TrailsPresentation(lex, answer, s, valid)))
  {
    hide HasUnsupportedLegalConclusion, InMarker, InDroppedConnector, TrailsPresentation, ParsedMarkers,
      LegalConclusionSegments, IsBeforeValidMarker, IsSourcedBy, ValidSpans;
    var parsed := ParsedMarkers(answer);
    var checked := CheckAll(parsed, context);
    var segments, valid := LegalConclusionSegments(lex, answer), ValidSpans(parsed, checked);
    CleanVerdictCoversEveryWord(lex, answer, checked, i);
    if !InMarker(answer, i) && !InDroppedConnector(lex, answer, segments, i) {
      var s :| s in segments && s.start <= i < s.end <= |answer|
        && (|| IsBeforeValidMarker(answer, s, valid, i)
            || (TrailingStart(valid, s.start, s.end) <= i && TrailsPresentation(lex, answer, s, valid)));
      if IsBeforeValidMarker(answer, s, valid, i) { BeforeValidIsSourced(answer, context, s, i); }
    }
  }

  lemma BeforeValidIsSourced(answer: string, context: Context, s: Span, i: nat)
    requires IsBeforeValidMarker(
      answer, s, ValidSpans(ParsedMarkers(answer), CheckAll(ParsedMarkers(answer), context)), i)
    ensures exists c :: IsSourcedBy(answer, context, s, i, c)
  {
    hide IsMarkerOf, ValidSpans, Checks, ParsedMarkers;
    var parsed := ParsedMarkers(answer);
    var valid := ValidSpans(parsed, CheckAll(parsed, context));
    var m :| m in valid && IsMarkerOf(answer, m) && s.start <= m.start && m.end <= s.end && i < m.end;
    var c := ValidSpanChecks(parsed, context, m);
    assert IsSourcedBy(answer, context, s, i, c);
  }
}
