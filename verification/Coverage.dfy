/**
 What a clean verdict of the citation checker means: the segments partition the
 answer without cutting a marker, and every alphanumeric character is accounted
 for.
 */
module Coverage {
  import opened Wrappers
  import opened Text
  import opened Markers
  import opened LegalText
  import opened Sources
  import opened Segments

  // ----- the scanners agree on where markers are -----

  /** Looking for the bracket from the prefix or from behind it finds the same one. */
  lemma BracketAfterPrefix(answer: string, p: nat)
    requires OccursAt(answer, OPEN, p)
    ensures Find(answer, CLOSE, p) == Find(answer, CLOSE, p + |OPEN|)
  {
    PrefixChars(answer, p);
    FindMeans(answer, CLOSE, p);
    FindMeans(answer, CLOSE, p + |OPEN|);
    forall j: nat ensures OccursAt(answer, CLOSE, j) <==> j < |answer| && answer[j] == ']' {
      OccursChar(answer, ']', j);
    }
  }

  /** The segmenter's jump over a marker lands where parsing ends the marker. */
  lemma JumpStaysClean(answer: string, p: nat)
    requires CutsNoMarker(answer, p) && OccursAt(answer, OPEN, p)
    ensures match Find(answer, CLOSE, p)
      case None => !IsClosed(answer, p)
      case Some(close) => IsMarkerOf(answer, Span(p, close + 1)) && CutsNoMarker(answer, close + 1)
  {
    hide Find, OccursAt, CutsNoMarker, IsClosed, IsMarkerOf, IsMarker;
    BracketAfterPrefix(answer, p);
    MarkerAtCleanOffset(answer, p);
    MarkerEndMeans(answer, p);
  }

  lemma {:induction false} PlainRunStaysClean(answer: string, p: nat, q: nat)
    requires p <= q <= |answer| && CutsNoMarker(answer, p)
    requires forall j :: p <= j < q ==> answer[j] != '['
    ensures CutsNoMarker(answer, q)
    decreases q - p
  {
    if p < q {
      if OccursAt(answer, OPEN, p) { PrefixChars(answer, p); }
      StepStaysClean(answer, p);
      PlainRunStaysClean(answer, p + 1, q);
    }
  }

  lemma {:induction false} ExtensionStaysClean(answer: string, p: nat)
    requires p <= |answer| && CutsNoMarker(answer, p)
    ensures CutsNoMarker(answer, ExtendThroughTrailingMarkers(answer, p))
    decreases |answer| - p
  {
    var next := SkipWhitespace(answer, p);
    PlainRunStaysClean(answer, p, next);
    if OccursAt(answer, OPEN, next) {
      JumpStaysClean(answer, next);
      var close := Find(answer, CLOSE, next);
      if close.Some? {
        ExtensionStaysClean(answer, close.value + 1);
      }
    }
  }

  /** The text between two offsets is a connector the segmenter splits at. */
  ghost predicate IsDroppedConnector(lex: Lexicon, answer: string, start: nat, at: nat, end: nat) {
    && start <= at < end <= |answer|
    && LegalConnectorAt(lex, answer, at) == Some(answer[at..end])
    && ShouldSplitAtLegalConnector(lex, answer, start, at, end)
  }

  /** Every move of the scan leaves it at an offset that cuts no marker. */
  lemma StepKeepsMarkersWhole(lex: Lexicon, answer: string, start: nat, cursor: nat, step: Step)
    requires start <= cursor < |answer| && CutsNoMarker(answer, cursor)
    requires step == NextStep(lex, answer, start, cursor)
    ensures cursor < step.next <= |answer| && CutsNoMarker(answer, step.next)
    ensures step.Cut? ==> cursor <= step.end <= step.next && CutsNoMarker(answer, step.end)
    ensures step.Cut? && step.end < step.next ==> IsDroppedConnector(lex, answer, start, step.end, step.next)
  {
    hide ShouldSplitAtLegalConnector, SplitsAfterDelimiter, IsLegalSegmentDelimiter, Find, OccursAt, CutsNoMarker,
      LegalConnectorAt, IsClosed, IsMarkerOf, ExtendThroughTrailingMarkers;
    StepMoves(lex, answer, start, cursor);
    if OccursAt(answer, OPEN, cursor) {
      JumpStaysClean(answer, cursor);
      EndIsClean(answer);
    } else {
      StepStaysClean(answer, cursor);
      var connector := LegalConnectorAt(lex, answer, cursor);
      if step.Cut? && step.end < step.next {
        ConnectorStaysClean(lex, answer, cursor);
      } else if step.Cut? {
        ExtensionStaysClean(answer, cursor + 1);
      }
    }
  }

  lemma ConnectorStaysClean(lex: Lexicon, answer: string, p: nat)
    requires CutsNoMarker(answer, p) && LegalConnectorAt(lex, answer, p).Some?
    ensures var end := p + |LegalConnectorAt(lex, answer, p).value|;
      end <= |answer| && answer[p..end] == LegalConnectorAt(lex, answer, p).value && CutsNoMarker(answer, end)
  {
    hide LegalConnectorAt;
    var connector := LegalConnectorAt(lex, answer, p).value;
    var end := p + |connector|;
    forall j | p <= j < end ensures answer[j] != '[' {
      assert answer[j] == answer[p..end][j - p] && connector[j - p] in connector;
    }
    PlainRunStaysClean(answer, p, end);
  }

  // ----- the partition theorem -----

  ghost predicate InSegment(segments: seq<Span>, i: nat) {
    exists s :: s in segments && s.start <= i < s.end
  }

  /**
   Offset `i` belongs to a connector that stands right behind one of the segments
   and splits there. Where the segment was cut by other means the connector opens
   the next segment instead of being dropped.
   */
  ghost predicate InSplittingConnector(lex: Lexicon, answer: string, segments: seq<Span>, i: nat) {
    exists s, end :: s in segments && s.end <= i < end && IsDroppedConnector(lex, answer, s.start, s.end, end)
  }

  /** Offset `i` belongs to a connector the segmenter dropped: it splits behind a segment, and no segment holds it. */
  ghost predicate InDroppedConnector(lex: Lexicon, answer: string, segments: seq<Span>, i: nat) {
    !InSegment(segments, i) && InSplittingConnector(lex, answer, segments, i)
  }

  ghost predicate IsSegment(answer: string, s: Span) {
    && s.start < s.end <= |answer|
    && !WhitespaceBetween(answer, s.start, s.end)
    && CutsNoMarker(answer, s.start) && CutsNoMarker(answer, s.end)
  }

  ghost predicate IsAccountedFor(lex: Lexicon, answer: string, segments: seq<Span>, i: nat)
    requires i < |answer|
  {
    InSegment(segments, i) || IsWhitespace(answer[i]) || InSplittingConnector(lex, answer, segments, i)
  }

  /**
   Segments from an offset on: ordered, disjoint, not blank, cutting no marker,
   and everything outside them is whitespace or a dropped connector.
   */
  ghost predicate IsPartition(lex: Lexicon, answer: string, from: nat, segments: seq<Span>) {
    && Ordered(segments, from)
    && (forall s :: s in segments ==> IsSegment(answer, s))
    && (forall i :: from <= i < |answer| ==> IsAccountedFor(lex, answer, segments, i))
  }

  lemma {:induction false} SegmentsPartition(lex: Lexicon, answer: string, start: nat, cursor: nat)
    requires start <= cursor <= |answer| && CutsNoMarker(answer, start) && CutsNoMarker(answer, cursor)
    ensures IsPartition(lex, answer, start, SegmentsFrom(lex, answer, start, cursor))
    decreases |answer| - cursor
  {
    hide NextStep, CutsNoMarker, IsDroppedConnector;
    if cursor == |answer| {
      LastPiece(lex, answer, start);
    } else {
      var step := NextStep(lex, answer, start, cursor);
      StepKeepsMarkersWhole(lex, answer, start, cursor, step);
      SegmentsStep(lex, answer, start, cursor, step);
      if step.Cut? {
        SegmentsPartition(lex, answer, step.next, step.next);
        CutKeepsPartition(lex, answer, start, step.end, step.next, SegmentsFrom(lex, answer, step.next, step.next));
      } else {
        SegmentsPartition(lex, answer, start, step.next);
      }
    }
  }

  lemma LastPiece(lex: Lexicon, answer: string, start: nat)
    requires start <= |answer| && CutsNoMarker(answer, start)
    ensures IsPartition(lex, answer, start, NonemptySegment(answer, start, |answer|))
  {
    EndIsClean(answer);
    hide CutsNoMarker, IsDroppedConnector;
    var segments := NonemptySegment(answer, start, |answer|);
    if segments != [] { assert segments[0] in segments; }
  }

  /** A cut in front of a partition of the rest. */
  lemma CutKeepsPartition(lex: Lexicon, answer: string, start: nat, end: nat, next: nat, rest: seq<Span>)
    requires start <= end <= next <= |answer| && CutsNoMarker(answer, start) && CutsNoMarker(answer, end)
    requires end < next ==> IsDroppedConnector(lex, answer, start, end, next)
    requires IsPartition(lex, answer, next, rest)
    ensures IsPartition(lex, answer, start, NonemptySegment(answer, start, end) + rest)
  {
    hide CutsNoMarker, IsAccountedFor, Ordered, IsDroppedConnector;
    CutAccounts(lex, answer, start, end, next, rest);
    CutKeepsOrder(answer, start, end, next, rest);
    assert forall s :: s in NonemptySegment(answer, start, end) + rest ==>
      s in rest || (s == Span(start, end) && HasInk(answer, start, end));
  }

  lemma CutKeepsOrder(answer: string, start: nat, end: nat, next: nat, rest: seq<Span>)
    requires start <= end <= next && Ordered(rest, next)
    ensures Ordered(NonemptySegment(answer, start, end) + rest, start)
  {
  }

  lemma CutAccounts(lex: Lexicon, answer: string, start: nat, end: nat, next: nat, rest: seq<Span>)
    requires start <= end <= next <= |answer|
    requires end < next ==> IsDroppedConnector(lex, answer, start, end, next)
    requires forall i :: next <= i < |answer| ==> IsAccountedFor(lex, answer, rest, i)
    ensures forall i :: start <= i < |answer| ==>
      IsAccountedFor(lex, answer, NonemptySegment(answer, start, end) + rest, i)
  {
    hide IsDroppedConnector;
    if end < next { DroppedConnectorFollowsInk(lex, answer, start, end, next); }
    var segments := NonemptySegment(answer, start, end) + rest;
    assert HasInk(answer, start, end) ==> segments[0] == Span(start, end) && Span(start, end) in segments;
    forall i | start <= i < |answer| ensures IsAccountedFor(lex, answer, segments, i) {
      if next <= i {
        MoreSegmentsAccount(lex, answer, rest, segments, i);
      } else if i < end {
        assert HasInk(answer, start, end) || IsWhitespace(answer[i]);
      } else {
        assert IsDroppedConnector(lex, answer, Span(start, end).start, Span(start, end).end, next);
      }
    }
  }

  lemma MoreSegmentsAccount(lex: Lexicon, answer: string, fewer: seq<Span>, more: seq<Span>, i: nat)
    requires i < |answer| && IsAccountedFor(lex, answer, fewer, i)
    requires forall s :: s in fewer ==> s in more
    ensures IsAccountedFor(lex, answer, more, i)
  {
    hide IsDroppedConnector;
  }

  /** A connector is dropped only after text that needs a source. */
  lemma DroppedConnectorFollowsInk(lex: Lexicon, answer: string, start: nat, at: nat, end: nat)
    requires IsDroppedConnector(lex, answer, start, at, end)
    ensures HasInk(answer, start, at)
  {
    hide IsPresentation, HasExplicitSubjectBeforeLegalPredicate, NextSegmentDelimiter, LegalConnectorAt,
      LooksLikeLegalAnswer, InMarker, Trim, RemoveSourceMarkers, IsWhitespace;
    var piece := answer[start..at];
    LegalAnswerMeans(lex, piece);
    var i :| 0 <= i < |piece| && lex.alnum(piece[i]);
    assert piece[i] == answer[start + i];
  }

  /** Some segment holds the whole marker and no other segment touches it. */
  ghost predicate InExactlyOneSegment(segments: seq<Span>, m: Span) {
    exists s :: && s in segments
                && s.start <= m.start && m.end <= s.end
                && forall t :: t in segments && t.start < m.end && m.start < t.end ==> t == s
  }

  /** The segments of an answer partition it, and every marker lies inside exactly one of them. */
  lemma SegmentsHoldMarkers(lex: Lexicon, answer: string)
    ensures IsPartition(lex, answer, 0, LegalConclusionSegments(lex, answer))
    ensures forall m :: IsMarkerOf(answer, m) ==> InExactlyOneSegment(LegalConclusionSegments(lex, answer), m)
  {
    EndIsClean(answer);
    SegmentsPartition(lex, answer, 0, 0);
    forall m | IsMarkerOf(answer, m) ensures InExactlyOneSegment(LegalConclusionSegments(lex, answer), m) {
      MarkerInOneSegment(lex, answer, LegalConclusionSegments(lex, answer), m);
    }
  }

  lemma MarkerInOneSegment(lex: Lexicon, answer: string, segments: seq<Span>, m: Span)
    requires IsPartition(lex, answer, 0, segments) && IsMarkerOf(answer, m)
    ensures InExactlyOneSegment(segments, m)
  {
    hide HasInk, IsAccountedFor, InExactlyOneSegment;
    assert m.start < m.end <= |answer| && answer[m.start] == '[' by {
      MarkersAreMarkers(answer, m);
      PrefixChars(answer, m.start);
    }
    assert IsAccountedFor(lex, answer, segments, m.start);
    var s := SegmentAt(lex, answer, segments, m.start);
    assert IsSegment(answer, s);
    OverlapIsSameSegment(segments, s, m);
  }

  lemma SegmentAt(lex: Lexicon, answer: string, segments: seq<Span>, i: nat) returns (s: Span)
    requires i < |answer| && answer[i] == '[' && IsAccountedFor(lex, answer, segments, i)
    ensures s in segments && s.start <= i < s.end
  {
    hide InSplittingConnector;
    NoPrefixInConnector(lex, answer, segments, i);
    s :| s in segments && s.start <= i < s.end;
  }

  lemma OverlapIsSameSegment(segments: seq<Span>, s: Span, m: Span)
    requires Ordered(segments, 0) && s in segments && s.start <= m.start < m.end <= s.end
    ensures InExactlyOneSegment(segments, m)
  {
    forall t | t in segments && t.start < m.end && m.start < t.end ensures t == s {
      var j, k :| 0 <= j < |segments| && 0 <= k < |segments| && segments[j] == s && segments[k] == t;
    }
  }

  lemma NoPrefixInConnector(lex: Lexicon, answer: string, segments: seq<Span>, i: nat)
    requires i < |answer|
    ensures InSplittingConnector(lex, answer, segments, i) ==> answer[i] != '['
  {
    hide LegalConnectorAt, ShouldSplitAtLegalConnector;
    if InSplittingConnector(lex, answer, segments, i) {
      var s, end :| s in segments && s.end <= i < end && IsDroppedConnector(lex, answer, s.start, s.end, end);
      var connector := answer[s.end..end];
      assert connector[i - s.end] in connector;
    }
  }

  // ----- what needs a source -----

  /** A piece looks like a legal answer iff it is no mere presentation and has a word outside its markers. */
  lemma LegalAnswerMeans(lex: Lexicon, piece: string)
    ensures LooksLikeLegalAnswer(lex, piece) <==>
      && !IsPresentation(lex, Trim(RemoveSourceMarkers(piece)))
      && exists i :: 0 <= i < |piece| && lex.alnum(piece[i]) && !InMarker(piece, i)
  {
    hide IsPresentation, InMarker, RemoveSourceMarkers;
    var kept := RemoveSourceMarkers(piece);
    TrimmedWords(lex, kept);
    if AnyChar(kept, lex.alnum) {
      var k :| 0 <= k < |kept| && lex.alnum(kept[k]);
      RemovedChars(piece, kept[k]);
    }
    if i :| 0 <= i < |piece| && lex.alnum(piece[i]) && !InMarker(piece, i) {
      RemovedChars(piece, piece[i]);
    }
  }

  lemma TrimmedWords(lex: Lexicon, s: string)
    ensures AnyChar(Trim(s), lex.alnum) <==> AnyChar(s, lex.alnum)
  {
    var lead := TrimSplits(s);
    hide Trim;
    var t := Trim(s);
    assert forall i :: 0 <= i < |t| ==> t[i] == s[lead + i];
    assert forall i :: lead <= i < lead + |t| ==> s[i] == t[i - lead];
  }

  // ----- the verdict, character by character -----

  ghost predicate AllMarkers(answer: string, spans: seq<Span>) {
    forall m :: m in spans ==> IsMarkerOf(answer, m)
  }

  /** The spans taken as valid are markers of the answer. */
  lemma {:induction false} ValidSpansAreMarkers(
    answer: string, parsed: seq<ParsedCitation>, validated: seq<ValidatedCitation>)
    requires forall k :: 0 <= k < |parsed| ==> IsMarkerOf(answer, Span(parsed[k].startIndex, parsed[k].endIndex))
    ensures AllMarkers(answer, ValidSpans(parsed, validated))
    decreases |parsed|
  {
    hide IsMarkerOf;
    if parsed != [] && validated != [] {
      ValidSpansAreMarkers(answer, parsed[1..], validated[1..]);
    }
  }

  /** The spans taken as valid are those of the reports found valid, and no others. */
  lemma {:induction false} ValidSpansMean(
    parsed: seq<ParsedCitation>, validated: seq<ValidatedCitation>, m: Span)
    requires |parsed| == |validated|
    ensures m in ValidSpans(parsed, validated) <==>
      exists k :: (&& 0 <= k < |parsed| && validated[k].status == Valid
                   && m == Span(parsed[k].startIndex, parsed[k].endIndex))
    decreases |parsed|
  {
    if parsed != [] {
      ValidSpansMean(parsed[1..], validated[1..], m);
      assert forall k :: 0 <= k < |parsed| - 1 ==>
        parsed[1..][k] == parsed[k + 1] && validated[1..][k] == validated[k + 1];
      if k :| 0 <= k < |parsed| && validated[k].status == Valid && m == Span(parsed[k].startIndex, parsed[k].endIndex) {
        if k > 0 { assert parsed[1..][k - 1] == parsed[k] && validated[1..][k - 1] == validated[k]; }
      }
    }
  }

  lemma ParsedAreMarkers(answer: string)
    ensures forall k :: 0 <= k < |ParsedMarkers(answer)| ==>
      IsMarkerOf(answer, Span(ParsedMarkers(answer)[k].startIndex, ParsedMarkers(answer)[k].endIndex))
  {
    hide IsValidSourceId, MarkerId, NamedBy;
    var spans := MarkerSpans(answer, 0);
    SpansInBounds(answer, 0);
    ReportsAt(answer, spans, |spans|);
  }

  /** The text after the last valid marker of a segment. */
  function TrailingPiece(answer: string, s: Span, valid: seq<Span>): string
    requires s.start <= s.end <= |answer|
  {
    answer[TrailingStart(valid, s.start, s.end)..s.end]
  }

  /** A refusal or a heading is all that follows the segment's last valid marker. */
  ghost predicate TrailsPresentation(lex: Lexicon, answer: string, s: Span, valid: seq<Span>)
    requires s.start <= s.end <= |answer|
  {
    IsPresentation(lex, Trim(RemoveSourceMarkers(TrailingPiece(answer, s, valid))))
  }

  lemma TrailingStartIsClean(answer: string, s: Span, valid: seq<Span>)
    requires s.start <= s.end && CutsNoMarker(answer, s.start) && AllMarkers(answer, valid)
    ensures CutsNoMarker(answer, TrailingStart(valid, s.start, s.end))
  {
    var t := TrailingStart(valid, s.start, s.end);
    if t != s.start {
      var m :| m in valid && m.end == t;
      forall n | IsMarkerOf(answer, n) ensures !(n.start < t < n.end) {
        MarkersAreDisjoint(answer, m, n);
        MarkersAreMarkers(answer, m);
      }
    }
  }

  /** A word of a segment, after its last valid marker and outside every marker, in prose that needs a source. */
  ghost predicate IsUncovered(lex: Lexicon, answer: string, s: Span, valid: seq<Span>, i: nat)
    requires s.start <= s.end <= |answer|
  {
    && TrailingStart(valid, s.start, s.end) <= i < s.end
    && lex.alnum(answer[i])
    && !InMarker(answer, i)
    && !TrailsPresentation(lex, answer, s, valid)
  }

  ghost predicate HasUncoveredWord(lex: Lexicon, answer: string, s: Span, valid: seq<Span>)
    requires s.start <= s.end <= |answer|
  {
    exists i :: IsUncovered(lex, answer, s, valid, i)
  }

  /** A segment is unsupported iff it ends in prose with a word that no marker of the answer holds. */
  lemma SegmentVerdict(lex: Lexicon, answer: string, s: Span, valid: seq<Span>)
    requires IsSegment(answer, s) && AllMarkers(answer, valid)
    ensures SegmentIsUnsupported(lex, answer, s, valid) <==> HasUncoveredWord(lex, answer, s, valid)
  {
    hide IsPresentation, InMarker, TrailingStart, LooksLikeLegalAnswer, CutsNoMarker, AllMarkers, WhitespaceBetween,
      Trim, RemoveSourceMarkers;
    var t := TrailingStart(valid, s.start, s.end);
    TrailingStartIsClean(answer, s, valid);
    var piece := answer[t..s.end];
    LegalAnswerMeans(lex, piece);
    forall i | t <= i < s.end ensures InMarker(piece, i - t) <==> InMarker(answer, i) {
      PieceOffsets(answer, t, s.end, i);
    }
    assert forall i :: 0 <= i < |piece| ==> piece[i] == answer[t + i];
    if HasUncoveredWord(lex, answer, s, valid) {
      var i: nat :| IsUncovered(lex, answer, s, valid, i);
      assert t <= i < s.end;
      assert piece[i - t] == answer[i];
    }
    if i :| 0 <= i < |piece| && lex.alnum(piece[i]) && !InMarker(piece, i) {
      assert InMarker(piece, t + i - t) <==> InMarker(answer, t + i);
      assert !TrailsPresentation(lex, answer, s, valid) ==> IsUncovered(lex, answer, s, valid, t + i);
    }
  }

  /** The verdict is exact: it is raised iff some segment of the answer has an uncovered word. */
  lemma VerdictIsExact(lex: Lexicon, answer: string, validated: seq<ValidatedCitation>)
    ensures var parsed := ParsedMarkers(answer);
      var valid := ValidSpans(parsed, validated);
      HasUnsupportedLegalConclusion(lex, answer, parsed, validated) <==>
      exists s :: s in LegalConclusionSegments(lex, answer) && IsSegment(answer, s)
        && HasUncoveredWord(lex, answer, s, valid)
  {
    hide SegmentIsUnsupported, HasUncoveredWord, CutsNoMarker, ParsedMarkers, LegalConclusionSegments, IsMarkerOf,
      ValidSpans;
    var parsed := ParsedMarkers(answer);
    var valid := ValidSpans(parsed, validated);
    ParsedAreMarkers(answer);
    ValidSpansAreMarkers(answer, parsed, validated);
    SegmentsHoldMarkers(lex, answer);
    forall s | s in LegalConclusionSegments(lex, answer)
      ensures IsSegment(answer, s)
      ensures SegmentIsUnsupported(lex, answer, s, valid) <==> HasUncoveredWord(lex, answer, s, valid)
    {
      SegmentVerdict(lex, answer, s, valid);
    }
    BlankHasNoSegment(lex, answer);
  }

  lemma BlankHasNoSegment(lex: Lexicon, answer: string)
    ensures LegalConclusionSegments(lex, answer) != [] ==> Trim(answer) != []
  {
    hide Trim, LegalConclusionSegments, CutsNoMarker, IsAccountedFor, InExactlyOneSegment;
    var lead := TrimSplits(answer);
    SegmentsHoldMarkers(lex, answer);
    var segments := LegalConclusionSegments(lex, answer);
    if segments != [] {
      var s := segments[0];
      assert s in segments;
    }
  }

  /** A valid marker of the segment ends behind offset `i`. */
  ghost predicate IsBeforeValidMarker(answer: string, s: Span, valid: seq<Span>, i: nat) {
    exists m :: m in valid && IsMarkerOf(answer, m) && s.start <= m.start && m.end <= s.end && i < m.end
  }

  lemma WordIsHeldOrDropped(lex: Lexicon, answer: string, segments: seq<Span>, i: nat)
    requires i < |answer| && lex.alnum(answer[i]) && IsAccountedFor(lex, answer, segments, i)
    ensures InSegment(segments, i) || InDroppedConnector(lex, answer, segments, i)
  {
    hide IsWhitespace, InSegment, InSplittingConnector;
  }

  /** A character in front of the trailing piece is in front of a valid marker. */
  lemma BeforeTrailingPiece(answer: string, s: Span, valid: seq<Span>, i: nat)
    requires AllMarkers(answer, valid) && s.start <= i < s.end && i < TrailingStart(valid, s.start, s.end)
    ensures IsBeforeValidMarker(answer, s, valid, i)
  {
    var m :| m in valid && s.start <= m.start && m.end <= s.end && m.end == TrailingStart(valid, s.start, s.end);
    assert IsMarkerOf(answer, m);
  }

  /**
   Coverage: when no conclusion is reported unsupported, every alphanumeric
   character is in a marker, in a dropped connector, in front of a valid marker
   of its own segment, or behind all of them in a trailing refusal or heading.
   */
  lemma CleanVerdictCoversEveryWord(lex: Lexicon, answer: string, validated: seq<ValidatedCitation>, i: nat)
    requires !HasUnsupportedLegalConclusion(lex, answer, ParsedMarkers(answer), validated)
    requires i < |answer| && lex.alnum(answer[i])
    ensures var segments := LegalConclusionSegments(lex, answer);
      var valid := ValidSpans(ParsedMarkers(answer), validated);
      || InMarker(answer, i)
      || InDroppedConnector(lex, answer, segments, i)
      || exists s :: s in segments && s.start <= i < s.end <= |answer|
           && (|| IsBeforeValidMarker(answer, s, valid, i)
               || (TrailingStart(valid, s.start, s.end) <= i && TrailsPresentation(lex, answer, s, valid)))
  {
    hide HasUnsupportedLegalConclusion, InMarker, InDroppedConnector, IsAccountedFor, TrailsPresentation, CutsNoMarker,
      WhitespaceBetween, ParsedMarkers, LegalConclusionSegments, IsMarkerOf, ValidSpans;
    VerdictIsExact(lex, answer, validated);
    SegmentsHoldMarkers(lex, answer);
    ParsedAreMarkers(answer);
    ValidSpansAreMarkers(answer, ParsedMarkers(answer), validated);
    var segments := LegalConclusionSegments(lex, answer);
    assert IsAccountedFor(lex, answer, segments, i);
    WordIsHeldOrDropped(lex, answer, segments, i);
    if InSegment(segments, i) && !InMarker(answer, i) {
      var s :| s in segments && s.start <= i < s.end;
      assert IsSegment(answer, s);
      var valid := ValidSpans(ParsedMarkers(answer), validated);
      assert !IsUncovered(lex, answer, s, valid, i);
      if i < TrailingStart(valid, s.start, s.end) { BeforeTrailingPiece(answer, s, valid, i); }
    }
  }
}
