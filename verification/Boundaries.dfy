/**
 Where the segmenter cuts an answer: behind every sentence end, at every
 connector and list delimiter that splits, and nowhere else.
 */
module Boundaries {
  import opened Wrappers
  import opened Text
  import opened Markers
  import opened LegalText
  import opened Sources
  import opened Segments
  import opened Coverage

  // ----- what a cut is, said without the segmenter -----

  /** A character that ends a sentence; a colon between two digits does not. */
  predicate EndsSentence(answer: string, i: nat) {
    && i < |answer|
    && (|| answer[i] in "。！？!?；;\n"
        || (answer[i] in ":：" && !(&& 0 < i && i + 1 < |answer|
                                   && '0' <= answer[i - 1] <= '9' && '0' <= answer[i + 1] <= '9')))
  }

  /** No marker holds the offset, and no prefix up to it is left unclosed. */
  ghost predicate IsPlain(answer: string, i: nat) {
    !InMarker(answer, i) && forall p: nat :: p <= i && OccursAt(answer, OPEN, p) ==> IsClosed(answer, p)
  }

  ghost predicate IsBlank(answer: string, j: nat) {
    j < |answer| && (IsWhitespace(answer[j]) || InMarker(answer, j))
  }

  ghost predicate EndsPlainly(answer: string, i: nat) {
    EndsSentence(answer, i) && IsPlain(answer, i)
  }

  /** A comma or enumeration comma at which the list splits. */
  ghost predicate SplitsList(lex: Lexicon, answer: string, start: nat, c: nat) {
    && start <= c < |answer| && answer[c] in ",，、"
    && ShouldSplitAtClauseListDelimiter(lex, answer, start, c)
  }

  ghost predicate SplitsWord(lex: Lexicon, answer: string, start: nat, c: nat) {
    exists end :: IsDroppedConnector(lex, answer, start, c, end)
  }

  /** Behind the end of a sentence the segment holds only whitespace and markers. */
  ghost predicate HoldsOneSentence(answer: string, s: Span) {
    forall i, j :: s.start <= i < j < s.end && EndsPlainly(answer, i) ==> IsBlank(answer, j)
  }

  /** Before its first sentence end, no connector in the segment splits, and a list splits only at its end. */
  ghost predicate MissesNoSplit(lex: Lexicon, answer: string, s: Span) {
    forall c :: && s.start <= c < s.end && IsPlain(answer, c)
                && (forall i :: s.start <= i < c ==> !EndsPlainly(answer, i)) ==>
      !SplitsWord(lex, answer, s.start, c) && (SplitsList(lex, answer, s.start, c) ==> s.end == c + 1)
  }

  /** The segment ends with a sentence, extended as far as whitespace and markers go. */
  ghost predicate EndsWithSentence(answer: string, s: Span) {
    exists i :: s.start <= i < s.end && IsSentenceCut(answer, i, s.end)
  }

  ghost predicate IsSentenceCut(answer: string, i: nat, end: nat) {
    EndsPlainly(answer, i) && (forall j :: i < j < end ==> IsBlank(answer, j)) && !IsBlank(answer, end)
  }

  ghost predicate EndsAtCut(lex: Lexicon, answer: string, s: Span) {
    || s.end == |answer|
    || EndsWithSentence(answer, s)
    || SplitsWord(lex, answer, s.start, s.end)
    || (s.end > 0 && SplitsList(lex, answer, s.start, s.end - 1))
  }

  ghost predicate IsCutRight(lex: Lexicon, answer: string, s: Span) {
    HoldsOneSentence(answer, s) && MissesNoSplit(lex, answer, s) && EndsAtCut(lex, answer, s)
  }

  // ----- the scan -----

  ghost predicate NoOpenBefore(answer: string, cursor: nat) {
    forall p: nat :: p < cursor && OccursAt(answer, OPEN, p) ==> IsClosed(answer, p)
  }

  /** No plain offset passed so far was a place to cut. */
  ghost predicate IsUncut(lex: Lexicon, answer: string, start: nat, cursor: nat) {
    forall c :: start <= c < cursor && IsPlain(answer, c) ==>
      !EndsSentence(answer, c) && !SplitsWord(lex, answer, start, c) && !SplitsList(lex, answer, start, c)
  }

  /** A clean offset without a prefix is outside every marker. */
  lemma VisitedIsPlain(answer: string, cursor: nat)
    requires CutsNoMarker(answer, cursor) && NoOpenBefore(answer, cursor) && !OccursAt(answer, OPEN, cursor)
    ensures IsPlain(answer, cursor)
  {
    if InMarker(answer, cursor) {
      var m :| IsMarkerOf(answer, m) && m.start <= cursor < m.end;
      MarkersAreMarkers(answer, m);
    }
  }

  lemma JumpKeepsClosed(answer: string, p: nat)
    requires CutsNoMarker(answer, p) && OccursAt(answer, OPEN, p) && Find(answer, CLOSE, p).Some?
    requires NoOpenBefore(answer, p)
    ensures var end := Find(answer, CLOSE, p).value + 1;
      NoOpenBefore(answer, end) && forall j :: p <= j < end ==> InMarker(answer, j)
  {
    JumpStaysClean(answer, p);
    var end := Find(answer, CLOSE, p).value + 1;
    var m := Span(p, end);
    MarkersAreMarkers(answer, m);
    forall q | p <= q < end && OccursAt(answer, OPEN, q) ensures IsClosed(answer, q) {
      NestedPrefix(answer, m, q);
      MarkerIsClosed(answer, Span(q, end));
    }
  }

  /** The extension passes whitespace and markers and goes as far as it can. */
  lemma {:induction false} ExtensionIsBlank(answer: string, p: nat)
    requires p <= |answer| && CutsNoMarker(answer, p) && NoOpenBefore(answer, p)
    ensures var end := ExtendThroughTrailingMarkers(answer, p);
      && NoOpenBefore(answer, end) && !IsBlank(answer, end)
      && forall j :: p <= j < end ==> IsBlank(answer, j)
    decreases |answer| - p
  {
    hide InMarker, CutsNoMarker, Find, IsClosed, OccursAt, IsWhitespace, NoOpenBefore;
    var next := SkipWhitespace(answer, p);
    WhitespaceStaysClean(answer, p, next);
    if OccursAt(answer, OPEN, next) && Find(answer, CLOSE, next).Some? {
      JumpStaysClean(answer, next);
      JumpKeepsClosed(answer, next);
      ExtensionIsBlank(answer, Find(answer, CLOSE, next).value + 1);
    } else {
      NoMarkerIsNotBlank(answer, next);
    }
  }

  /** Neither whitespace nor a marker starts where the extension stops. */
  lemma NoMarkerIsNotBlank(answer: string, next: nat)
    requires next <= |answer| && CutsNoMarker(answer, next) && NoOpenBefore(answer, next)
    requires next < |answer| ==> !IsWhitespace(answer[next])
    requires OccursAt(answer, OPEN, next) ==> Find(answer, CLOSE, next).None?
    ensures !IsBlank(answer, next)
  {
    hide InMarker, CutsNoMarker, Find, IsClosed, OccursAt, IsWhitespace, NoOpenBefore;
    if OccursAt(answer, OPEN, next) {
      JumpStaysClean(answer, next);
      UnclosedIsNoMarker(answer, next);
    } else {
      VisitedIsPlain(answer, next);
    }
  }

  lemma WhitespaceStaysClean(answer: string, p: nat, next: nat)
    requires p <= next <= |answer| && WhitespaceBetween(answer, p, next)
    requires CutsNoMarker(answer, p) && NoOpenBefore(answer, p)
    ensures CutsNoMarker(answer, next) && NoOpenBefore(answer, next)
  {
    hide CutsNoMarker;
    PlainRunStaysClean(answer, p, next);
    forall q | p <= q < next ensures !OccursAt(answer, OPEN, q) {
      if OccursAt(answer, OPEN, q) { PrefixChars(answer, q); }
    }
  }

  lemma UnclosedIsNoMarker(answer: string, p: nat)
    requires CutsNoMarker(answer, p) && OccursAt(answer, OPEN, p) && !IsClosed(answer, p)
    ensures !IsBlank(answer, p)
  {
    PrefixChars(answer, p);
    if InMarker(answer, p) {
      var m :| IsMarkerOf(answer, m) && m.start <= p < m.end;
      MarkersAreMarkers(answer, m);
      MarkerIsClosed(answer, m);
    }
  }

  // ----- every segment is cut right -----

  /** The moves of the scan, said in terms of cuts. */
  lemma CutsAreMoves(lex: Lexicon, answer: string, start: nat, cursor: nat)
    requires start <= cursor < |answer|
    ensures SplitsAtConnector(lex, answer, start, cursor) <==> SplitsWord(lex, answer, start, cursor)
    ensures SplitsAfterDelimiter(lex, answer, start, cursor) <==> SplitsList(lex, answer, start, cursor)
    ensures IsLegalSegmentDelimiter(answer, cursor) <==> EndsSentence(answer, cursor)
  {
    hide ShouldSplitAtLegalConnector, ShouldSplitAtClauseListDelimiter, LegalConnectorAt;
    var connector := LegalConnectorAt(lex, answer, cursor);
    if SplitsAtConnector(lex, answer, start, cursor) {
      assert IsDroppedConnector(lex, answer, start, cursor, cursor + |connector.value|);
    }
  }

  lemma UncutIsRight(lex: Lexicon, answer: string, start: nat, end: nat)
    requires start <= end <= |answer| && IsUncut(lex, answer, start, end)
    requires EndsAtCut(lex, answer, Span(start, end))
    ensures IsCutRight(lex, answer, Span(start, end))
  {
    hide EndsSentence, IsPlain, SplitsList, SplitsWord, EndsAtCut;
  }

  lemma ListCutIsRight(lex: Lexicon, answer: string, start: nat, cursor: nat)
    requires start <= cursor < |answer| && IsUncut(lex, answer, start, cursor)
    requires !SplitsWord(lex, answer, start, cursor) && SplitsList(lex, answer, start, cursor)
    ensures IsCutRight(lex, answer, Span(start, cursor + 1))
  {
    hide EndsSentence, IsPlain, SplitsWord, ShouldSplitAtClauseListDelimiter;
  }

  lemma SentenceCutIsRight(lex: Lexicon, answer: string, start: nat, cursor: nat, end: nat)
    requires start <= cursor < end <= |answer| && IsUncut(lex, answer, start, cursor)
    requires !SplitsWord(lex, answer, start, cursor) && !SplitsList(lex, answer, start, cursor)
    requires IsSentenceCut(answer, cursor, end)
    ensures IsCutRight(lex, answer, Span(start, end))
  {
    hide EndsSentence, IsPlain, SplitsWord, SplitsList, IsBlank;
  }

  lemma {:induction false} SegmentsAreCutRight(lex: Lexicon, answer: string, start: nat, cursor: nat)
    requires start <= cursor <= |answer| && CutsNoMarker(answer, cursor) && IsUncut(lex, answer, start, cursor)
    requires cursor < |answer| ==> NoOpenBefore(answer, cursor)
    ensures forall s :: s in SegmentsFrom(lex, answer, start, cursor) ==> IsCutRight(lex, answer, s)
    decreases |answer| - cursor
  {
    hide *;
    if cursor == |answer| {
      LastCutIsRight(lex, answer, start);
      SegmentsEnd(lex, answer, start);
    } else {
      var step := NextStep(lex, answer, start, cursor);
      StepKeepsMarkersWhole(lex, answer, start, cursor, step);
      SegmentsStep(lex, answer, start, cursor, step);
      StepCutsRight(lex, answer, start, cursor, step);
      if step.Cut? {
        SegmentsAreCutRight(lex, answer, step.next, step.next);
        OneSegment(answer, start, step.end);
      } else {
        SegmentsAreCutRight(lex, answer, start, step.next);
      }
    }
  }

  lemma OneSegment(answer: string, start: nat, end: nat)
    ensures forall s :: s in NonemptySegment(answer, start, end) ==> s == Span(start, end)
  {
  }

  lemma LastCutIsRight(lex: Lexicon, answer: string, start: nat)
    requires start <= |answer| && IsUncut(lex, answer, start, |answer|)
    ensures forall s :: s in NonemptySegment(answer, start, |answer|) ==> IsCutRight(lex, answer, s)
  {
    OneSegment(answer, start, |answer|);
    assert EndsAtCut(lex, answer, Span(start, |answer|)) by { hide EndsWithSentence, SplitsWord, SplitsList; }
    hide IsCutRight, IsUncut, EndsAtCut, HasInk;
    UncutIsRight(lex, answer, start, |answer|);
  }

  /** Each move keeps what is passed uncut, and cuts right if it cuts. */
  lemma StepCutsRight(lex: Lexicon, answer: string, start: nat, cursor: nat, step: Step)
    requires start <= cursor < |answer| && CutsNoMarker(answer, cursor) && IsUncut(lex, answer, start, cursor)
    requires NoOpenBefore(answer, cursor) && step == NextStep(lex, answer, start, cursor)
    requires start <= cursor < step.next <= |answer| && (step.Cut? ==> cursor <= step.end <= step.next)
    ensures step.Cut? ==> IsCutRight(lex, answer, Span(start, step.end))
    ensures IsUncut(lex, answer, if step.Cut? then step.next else start, step.next)
    ensures step.next < |answer| ==> NoOpenBefore(answer, step.next)
  {
    hide IsCutRight, IsUncut, NoOpenBefore, CutsNoMarker, NextStep, SplitsAtConnector, SplitsAfterDelimiter,
      IsLegalSegmentDelimiter, EndsSentence, SplitsWord, SplitsList, Find, OccursAt, IsPlain, LegalConnectorAt;
    if OccursAt(answer, OPEN, cursor) {
      MarkerStep(lex, answer, start, cursor);
      MarkerIsUncut(lex, answer, start, cursor);
    } else {
      PlainStep(lex, answer, start, cursor);
      CutsAreMoves(lex, answer, start, cursor);
      NothingUncut(lex, answer, step.next);
      PlainKeepsClosed(lex, answer, start, cursor);
      if SplitsWord(lex, answer, start, cursor) {
        WordCutIsRight(lex, answer, start, cursor);
        ConnectorKeepsClosed(lex, answer, cursor);
      } else if SplitsList(lex, answer, start, cursor) {
        ListCutIsRight(lex, answer, start, cursor);
      } else if EndsSentence(answer, cursor) {
        SentenceStep(lex, answer, start, cursor);
      }
    }
  }

  /** The move at an offset that opens no marker. */
  lemma PlainStep(lex: Lexicon, answer: string, start: nat, cursor: nat)
    requires start <= cursor < |answer| && !OccursAt(answer, OPEN, cursor)
    ensures var step := NextStep(lex, answer, start, cursor);
      && (SplitsAtConnector(lex, answer, start, cursor) ==>
        LegalConnectorAt(lex, answer, cursor).Some?
        && step == Cut(cursor, cursor + |LegalConnectorAt(lex, answer, cursor).value|))
      && (!SplitsAtConnector(lex, answer, start, cursor) && SplitsAfterDelimiter(lex, answer, start, cursor) ==>
        step == Cut(cursor + 1, cursor + 1))
      && (!SplitsAtConnector(lex, answer, start, cursor) && !SplitsAfterDelimiter(lex, answer, start, cursor) ==>
        var end := ExtendThroughTrailingMarkers(answer, cursor + 1);
        step == if IsLegalSegmentDelimiter(answer, cursor) then Cut(end, end) else Advance(cursor + 1))
  {
    hide ShouldSplitAtLegalConnector, SplitsAfterDelimiter, IsLegalSegmentDelimiter, LegalConnectorAt, OccursAt, Find,
      ExtendThroughTrailingMarkers;
  }

  lemma WordCutIsRight(lex: Lexicon, answer: string, start: nat, cursor: nat)
    requires start <= cursor <= |answer| && IsUncut(lex, answer, start, cursor)
    requires SplitsWord(lex, answer, start, cursor)
    ensures IsCutRight(lex, answer, Span(start, cursor))
  {
    hide IsUncut, IsCutRight, SplitsWord;
    UncutIsRight(lex, answer, start, cursor);
  }

  lemma SentenceStep(lex: Lexicon, answer: string, start: nat, cursor: nat)
    requires start <= cursor < |answer| && CutsNoMarker(answer, cursor) && IsUncut(lex, answer, start, cursor)
    requires NoOpenBefore(answer, cursor) && !OccursAt(answer, OPEN, cursor) && EndsSentence(answer, cursor)
    requires !SplitsWord(lex, answer, start, cursor) && !SplitsList(lex, answer, start, cursor)
    ensures var end := ExtendThroughTrailingMarkers(answer, cursor + 1);
      IsCutRight(lex, answer, Span(start, end)) && NoOpenBefore(answer, end)
  {
    hide IsCutRight, IsUncut, NoOpenBefore, CutsNoMarker, SplitsWord, SplitsList, IsPlain, OccursAt, IsBlank,
      ExtendThroughTrailingMarkers, EndsSentence;
    VisitedIsPlain(answer, cursor);
    StepStaysClean(answer, cursor);
    PlainKeepsClosed(lex, answer, start, cursor);
    ExtensionIsBlank(answer, cursor + 1);
    SentenceCutIsRight(lex, answer, start, cursor, ExtendThroughTrailingMarkers(answer, cursor + 1));
  }

  lemma NothingUncut(lex: Lexicon, answer: string, start: nat)
    ensures IsUncut(lex, answer, start, start)
  {
  }

  lemma MarkerIsUncut(lex: Lexicon, answer: string, start: nat, cursor: nat)
    requires start <= cursor < |answer| && CutsNoMarker(answer, cursor) && OccursAt(answer, OPEN, cursor)
    requires NoOpenBefore(answer, cursor) && IsUncut(lex, answer, start, cursor)
    ensures var close := Find(answer, CLOSE, cursor);
      && IsUncut(lex, answer, start, if close.Some? then close.value + 1 else |answer|)
      && (close.Some? ==> NoOpenBefore(answer, close.value + 1))
  {
    hide Find, OccursAt, CutsNoMarker, EndsSentence, SplitsWord, SplitsList, InMarker, IsClosed;
    JumpStaysClean(answer, cursor);
    if Find(answer, CLOSE, cursor).Some? { JumpKeepsClosed(answer, cursor); }
  }

  lemma PlainKeepsClosed(lex: Lexicon, answer: string, start: nat, cursor: nat)
    requires start <= cursor < |answer| && !OccursAt(answer, OPEN, cursor)
    requires NoOpenBefore(answer, cursor) && IsUncut(lex, answer, start, cursor)
    ensures NoOpenBefore(answer, cursor + 1)
    ensures !SplitsWord(lex, answer, start, cursor) && !SplitsList(lex, answer, start, cursor) ==>
      EndsSentence(answer, cursor) || IsUncut(lex, answer, start, cursor + 1)
  {
    hide EndsSentence, IsPlain, SplitsWord, SplitsList, OccursAt;
  }

  lemma ConnectorKeepsClosed(lex: Lexicon, answer: string, p: nat)
    requires LegalConnectorAt(lex, answer, p).Some? && NoOpenBefore(answer, p)
    ensures NoOpenBefore(answer, p + |LegalConnectorAt(lex, answer, p).value|)
  {
    hide LegalConnectorAt;
    var connector := LegalConnectorAt(lex, answer, p).value;
    forall q | p <= q < p + |connector| ensures !OccursAt(answer, OPEN, q) {
      assert answer[q] == answer[p..p + |connector|][q - p] && connector[q - p] in connector;
      if OccursAt(answer, OPEN, q) { PrefixChars(answer, q); }
    }
  }

  lemma CutRight(lex: Lexicon, answer: string)
    ensures forall s :: s in LegalConclusionSegments(lex, answer) ==> IsCutRight(lex, answer, s)
  {
    hide IsCutRight, SegmentsFrom, CutsNoMarker, IsUncut, OccursAt;
    EndIsClean(answer);
    NothingUncut(lex, answer, 0);
    SegmentsAreCutRight(lex, answer, 0, 0);
  }

  // ----- the theorems -----

  /** A sentence end outside every marker ends its segment: only whitespace and markers follow there. */
  lemma SentencesEndSegments(lex: Lexicon, answer: string, s: Span, i: nat, j: nat)
    requires s in LegalConclusionSegments(lex, answer) && s.start <= i < j < s.end
    requires EndsSentence(answer, i) && IsPlain(answer, i)
    ensures j < |answer| && (IsWhitespace(answer[j]) || InMarker(answer, j))
  {
    hide LegalConclusionSegments, EndsSentence, IsPlain, MissesNoSplit, EndsAtCut, InMarker;
    CutRight(lex, answer);
    assert EndsPlainly(answer, i) && HoldsOneSentence(answer, s);
    assert IsBlank(answer, j);
  }

  /**
   A segment ends with the answer, with a sentence and all whitespace and markers
   that follow it, in front of a connector that splits, or behind a list delimiter that does.
   */
  lemma SegmentsEndAtCuts(lex: Lexicon, answer: string, s: Span)
    requires s in LegalConclusionSegments(lex, answer)
    ensures || s.end == |answer|
            || (exists i :: s.start <= i < s.end && IsSentenceCut(answer, i, s.end))
            || (exists end :: IsDroppedConnector(lex, answer, s.start, s.end, end))
            || (&& s.start < s.end <= |answer| && answer[s.end - 1] in ",，、"
                && ShouldSplitAtClauseListDelimiter(lex, answer, s.start, s.end - 1))
  {
    hide LegalConclusionSegments, IsSentenceCut, HoldsOneSentence, MissesNoSplit, ShouldSplitAtClauseListDelimiter,
      IsDroppedConnector;
    CutRight(lex, answer);
    assert EndsAtCut(lex, answer, s);
  }

  /** Up to its first sentence end, a segment passes over no connector that splits and no list delimiter that does. */
  lemma NoSplitIsMissed(lex: Lexicon, answer: string, s: Span, c: nat)
    requires s in LegalConclusionSegments(lex, answer) && s.start <= c < s.end && IsPlain(answer, c)
    requires forall i :: s.start <= i < c && IsPlain(answer, i) ==> !EndsSentence(answer, i)
    ensures forall end :: !IsDroppedConnector(lex, answer, s.start, c, end)
    ensures c < |answer| && answer[c] in ",，、" && ShouldSplitAtClauseListDelimiter(lex, answer, s.start, c) ==>
      s.end == c + 1
  {
    hide LegalConclusionSegments, EndsSentence, IsPlain, HoldsOneSentence, EndsAtCut, ShouldSplitAtClauseListDelimiter,
      IsDroppedConnector;
    CutRight(lex, answer);
    assert MissesNoSplit(lex, answer, s);
  }
}
