/**
 Cutting an answer into legal conclusions, and deciding whether each of them is
 followed by a valid source marker.
 */
module Segments {
  import opened Wrappers
  import opened Text
  import opened Markers
  import opened LegalText
  import opened Sources

  // ----- the segmenter -----

  function SkipWhitespace(answer: string, cursor: nat): (r: nat)
    requires cursor <= |answer|
    ensures cursor <= r <= |answer| && WhitespaceBetween(answer, cursor, r)
    ensures r == |answer| || !IsWhitespace(answer[r])
    decreases |answer| - cursor
  {
    if cursor < |answer| && IsWhitespace(answer[cursor]) then SkipWhitespace(answer, cursor + 1) else cursor
  }

  /** Moves past whitespace and closed markers that follow a sentence. */
  function ExtendThroughTrailingMarkers(answer: string, cursor: nat): (r: nat)
    requires cursor <= |answer|
    ensures cursor <= r <= |answer|
    decreases |answer| - cursor
  {
    var next := SkipWhitespace(answer, cursor);
    if !OccursAt(answer, OPEN, next) then next
    else
      match Find(answer, CLOSE, next)
      case None => next
      case Some(close) => ExtendThroughTrailingMarkers(answer, close + 1)
  }

  method ExtendThroughTrailingMarkersLoop(answer: string, from: nat) returns (cursor: nat)
    requires from <= |answer|
    ensures cursor == ExtendThroughTrailingMarkers(answer, from)
  {
    hide IsWhitespace, WhitespaceBetween, OccursAt, Find;
    cursor := from;
    while true
      invariant from <= cursor <= |answer|
      invariant ExtendThroughTrailingMarkers(answer, cursor) == ExtendThroughTrailingMarkers(answer, from)
      decreases |answer| - cursor
    {
      ghost var before := cursor;
      while cursor < |answer| && IsWhitespace(answer[cursor])
        invariant before <= cursor <= |answer|
        invariant SkipWhitespace(answer, cursor) == SkipWhitespace(answer, before)
      {
        cursor := cursor + 1;
      }
      if !OccursAt(answer, OPEN, cursor) { return; }
      var close := Find(answer, CLOSE, cursor);
      if close.None? { return; }
      cursor := close.value + 1;
    }
  }

  /** One move of the scan: step forward, or end a segment and restart after it. */
  datatype Step = Advance(next: nat) | Cut(end: nat, next: nat)

  predicate SplitsAtConnector(lex: Lexicon, answer: string, start: nat, cursor: nat)
    requires start <= cursor < |answer|
  {
    var connector := LegalConnectorAt(lex, answer, cursor);
    connector.Some? && ShouldSplitAtLegalConnector(lex, answer, start, cursor, cursor + |connector.value|)
  }

  predicate SplitsAfterDelimiter(lex: Lexicon, answer: string, start: nat, cursor: nat)
    requires start <= cursor < |answer|
  {
    answer[cursor] in ",，、" && ShouldSplitAtClauseListDelimiter(lex, answer, start, cursor)
  }

  function NextStep(lex: Lexicon, answer: string, start: nat, cursor: nat): Step
    requires start <= cursor < |answer|
  {
    if OccursAt(answer, OPEN, cursor) then
      match Find(answer, CLOSE, cursor)
      case None => Advance(|answer|)
      case Some(close) => Advance(close + 1)
    else if SplitsAtConnector(lex, answer, start, cursor) then
      Cut(cursor, cursor + |LegalConnectorAt(lex, answer, cursor).value|)
    else if SplitsAfterDelimiter(lex, answer, start, cursor) then
      Cut(cursor + 1, cursor + 1)
    else if IsLegalSegmentDelimiter(answer, cursor) then
      var end := ExtendThroughTrailingMarkers(answer, cursor + 1);
      Cut(end, end)
    else
      Advance(cursor + 1)
  }

  lemma StepMoves(lex: Lexicon, answer: string, start: nat, cursor: nat)
    requires start <= cursor < |answer|
    ensures var step := NextStep(lex, answer, start, cursor);
      cursor < step.next <= |answer| && (step.Cut? ==> cursor <= step.end <= step.next)
  {
    hide ShouldSplitAtLegalConnector, SplitsAfterDelimiter, IsLegalSegmentDelimiter, LegalConnectorAt, Find;
  }

  predicate HasInk(answer: string, start: nat, end: nat) {
    start < end <= |answer| && !WhitespaceBetween(answer, start, end)
  }

  function NonemptySegment(answer: string, start: nat, end: nat): seq<Span> {
    if HasInk(answer, start, end) then [Span(start, end)] else []
  }

  function SegmentsFrom(lex: Lexicon, answer: string, start: nat, cursor: nat): seq<Span>
    requires start <= cursor <= |answer|
    decreases |answer| - cursor
  {
    if cursor == |answer| then NonemptySegment(answer, start, |answer|)
    else
      StepMoves(lex, answer, start, cursor);
      match NextStep(lex, answer, start, cursor)
      case Advance(next) => SegmentsFrom(lex, answer, start, next)
      case Cut(end, next) => NonemptySegment(answer, start, end) + SegmentsFrom(lex, answer, next, next)
  }

  function LegalConclusionSegments(lex: Lexicon, answer: string): seq<Span> {
    SegmentsFrom(lex, answer, 0, 0)
  }

  /** One unfolding of the segmenter. */
  lemma SegmentsStep(lex: Lexicon, answer: string, start: nat, cursor: nat, step: Step)
    requires start <= cursor < |answer| && step == NextStep(lex, answer, start, cursor)
    ensures cursor < step.next <= |answer| && (step.Cut? ==> cursor <= step.end <= step.next)
    ensures SegmentsFrom(lex, answer, start, cursor) ==
      match step
      case Advance(next) => SegmentsFrom(lex, answer, start, next)
      case Cut(end, next) => NonemptySegment(answer, start, end) + SegmentsFrom(lex, answer, next, next)
  {
    StepMoves(lex, answer, start, cursor);
    hide NextStep;
  }

  lemma SegmentsEnd(lex: Lexicon, answer: string, start: nat)
    requires start <= |answer|
    ensures SegmentsFrom(lex, answer, start, |answer|) ==
      if start < |answer| then NonemptySegment(answer, start, |answer|) else []
  {
  }

  lemma MarkerStep(lex: Lexicon, answer: string, start: nat, cursor: nat)
    requires start <= cursor < |answer| && OccursAt(answer, OPEN, cursor)
    ensures var close := Find(answer, CLOSE, cursor);
      NextStep(lex, answer, start, cursor) == Advance(if close.Some? then close.value + 1 else |answer|)
  {
    hide SplitsAtConnector, SplitsAfterDelimiter, IsLegalSegmentDelimiter, Find, OccursAt;
  }

  method LegalConclusionSegmentsLoop(lex: Lexicon, answer: string) returns (segments: seq<Span>)
    ensures segments == LegalConclusionSegments(lex, answer)
  {
    hide ShouldSplitAtLegalConnector, SplitsAfterDelimiter, IsLegalSegmentDelimiter, LegalConnectorAt, Find, OccursAt,
      SegmentsFrom, NonemptySegment, ExtendThroughTrailingMarkers;
    segments := [];
    var start: nat, cursor: nat := 0, 0;
    ghost var rest := SegmentsFrom(lex, answer, 0, 0);
    while cursor < |answer|
      invariant start <= cursor <= |answer|
      invariant rest == SegmentsFrom(lex, answer, start, cursor)
      invariant segments + rest == LegalConclusionSegments(lex, answer)
    {
      ghost var before, step := cursor, NextStep(lex, answer, start, cursor);
      SegmentsStep(lex, answer, start, cursor, step);
      ghost var piece := if step.Cut? then NonemptySegment(answer, start, step.end) else [];
      rest := SegmentsFrom(lex, answer, if step.Cut? then step.next else start, step.next);
      CutAssociates(segments, piece, rest);
      if OccursAt(answer, OPEN, cursor) {
        var close := Find(answer, CLOSE, cursor);
        cursor := if close.Some? then close.value + 1 else |answer|;
        MarkerStep(lex, answer, start, before);
        continue;
      }
      if SplitsAtConnector(lex, answer, start, cursor) {
        var connectorEnd := cursor + |LegalConnectorAt(lex, answer, cursor).value|;
        segments := segments + NonemptySegment(answer, start, cursor);
        assert step == Cut(cursor, connectorEnd);
        start, cursor := connectorEnd, connectorEnd;
        continue;
      }
      if SplitsAfterDelimiter(lex, answer, start, cursor) {
        segments := segments + NonemptySegment(answer, start, cursor + 1);
        assert step == Cut(cursor + 1, cursor + 1);
        start, cursor := cursor + 1, cursor + 1;
        continue;
      }
      if IsLegalSegmentDelimiter(answer, cursor) {
        var end := ExtendThroughTrailingMarkersLoop(answer, cursor + 1);
        segments := segments + NonemptySegment(answer, start, end);
        assert step == Cut(end, end);
        start, cursor := end, end;
        continue;
      }
      cursor := cursor + 1;
      assert step == Advance(cursor);
    }
    SegmentsEnd(lex, answer, start);
    if start < |answer| {
      segments := segments + NonemptySegment(answer, start, |answer|);
    }
  }

  lemma CutAssociates(done: seq<Span>, piece: seq<Span>, rest: seq<Span>)
    ensures done + (piece + rest) == (done + piece) + rest
    ensures piece == [] ==> done + (piece + rest) == done + rest
  {
  }

  // ----- the verdict -----

  /** The spans of the markers that were found valid, pairing reports and verdicts in order. */
  function ValidSpans(parsed: seq<ParsedCitation>, validated: seq<ValidatedCitation>): seq<Span> {
    if parsed == [] || validated == [] then []
    else
      (if validated[0].status.Valid? then [Span(parsed[0].startIndex, parsed[0].endIndex)] else [])
      + ValidSpans(parsed[1..], validated[1..])
  }

  /** The end of the last valid marker inside the segment, or the segment's start. */
  function TrailingStart(valid: seq<Span>, start: nat, end: nat): (r: nat)
    requires start <= end
    ensures start <= r <= end
    ensures forall m :: m in valid && start <= m.start && m.end <= end ==> m.end <= r
    ensures r == start || exists m :: m in valid && start <= m.start && m.end <= end && m.end == r
  {
    if valid == [] then start
    else
      var m, rest := valid[0], TrailingStart(valid[1..], start, end);
      if start <= m.start && m.end <= end && rest < m.end then m.end else rest
  }

  predicate SegmentIsUnsupported(lex: Lexicon, answer: string, s: Span, valid: seq<Span>)
    requires s.start <= s.end <= |answer|
  {
    LooksLikeLegalAnswer(lex, answer[TrailingStart(valid, s.start, s.end)..s.end])
  }

  predicate HasUnsupportedLegalConclusion(
    lex: Lexicon, answer: string, parsed: seq<ParsedCitation>, validated: seq<ValidatedCitation>)
  {
    && Trim(answer) != []
    && var valid := ValidSpans(parsed, validated);
    exists s :: s in LegalConclusionSegments(lex, answer)
      && s.start <= s.end <= |answer| && SegmentIsUnsupported(lex, answer, s, valid)
  }
}
