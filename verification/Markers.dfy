/**
 Source markers `[SRC:...]`: where they are, what parsing reports about each of
 them, and what is left of a text once they are taken out.
 */
module Markers {
  import opened Wrappers
  import opened Text

  const OPEN := "[SRC:"
  const CLOSE := "]"

  /** A half-open range of character offsets. */
  datatype Span = Span(start: nat, end: nat)

  // ----- where markers are, said without a scanner -----

  /** The marker opened at `m.start` closes at the first bracket after its prefix. */
  ghost predicate IsMarker(text: string, m: Span) {
    && OccursAt(text, OPEN, m.start)
    && m.start + |OPEN| < m.end <= |text|
    && text[m.end - 1] == ']'
    && forall j :: m.start + |OPEN| <= j < m.end - 1 ==> text[j] != ']'
  }

  ghost predicate IsClosed(text: string, i: nat) {
    exists j :: i + |OPEN| <= j < |text| && text[j] == ']'
  }

  ghost predicate Within(spans: seq<Span>, i: nat) {
    exists k :: 0 <= k < |spans| && spans[k].start <= i < spans[k].end
  }

  ghost predicate Ordered(spans: seq<Span>, from: nat) {
    && (forall k :: 0 <= k < |spans| ==> from <= spans[k].start < spans[k].end)
    && (forall j, k :: 0 <= j < k < |spans| ==> spans[j].end <= spans[k].start)
  }

  /**
   The markers of `text` from an offset: ordered and disjoint, each of them a
   marker, and no closed opening prefix is left outside all of them.
   */
  ghost predicate IsMarkerList(text: string, from: nat, spans: seq<Span>) {
    && Ordered(spans, from)
    && (forall k :: 0 <= k < |spans| ==> IsMarker(text, spans[k]))
    && (forall i :: from <= i && OccursAt(text, OPEN, i) && IsClosed(text, i) ==> Within(spans, i))
  }

  // ----- the left-to-right scan -----

  /** The offset just after the marker opened at `start`, if it is closed. */
  function MarkerEnd(text: string, start: nat): (r: Option<nat>)
    ensures r.Some? ==> start + |OPEN| < r.value <= |text|
  {
    match Find(text, CLOSE, start + |OPEN|)
    case None => None
    case Some(close) => Some(close + 1)
  }

  function MarkerSpans(text: string, from: nat): seq<Span>
    decreases |text| - from
  {
    match Find(text, OPEN, from)
    case None => []
    case Some(start) =>
      match MarkerEnd(text, start)
      case None => []
      case Some(end) => [Span(start, end)] + MarkerSpans(text, end)
  }

  lemma ScanStep(text: string, from: nat)
    ensures var found := Find(text, OPEN, from);
      var end := if found.Some? then MarkerEnd(text, found.value) else None;
      MarkerSpans(text, from) ==
      if end.None? then [] else [Span(found.value, end.value)] + MarkerSpans(text, end.value)
  {
  }

  /** `MarkerEnd` finds the end of the marker, or there is none. */
  lemma MarkerEndMeans(text: string, start: nat)
    requires OccursAt(text, OPEN, start)
    ensures MarkerEnd(text, start).None? <==> !IsClosed(text, start)
    ensures MarkerEnd(text, start).Some? ==> IsMarker(text, Span(start, MarkerEnd(text, start).value))
  {
    FindMeans(text, CLOSE, start + |OPEN|);
    forall j: nat ensures OccursAt(text, CLOSE, j) <==> j < |text| && text[j] == ']' {
      OccursChar(text, ']', j);
    }
  }

  /** One step of the scan: the next marker, or no closed prefix is left. */
  lemma NextMarker(text: string, from: nat)
    ensures MarkerSpans(text, from) == [] ==>
      forall i :: from <= i && OccursAt(text, OPEN, i) ==> !IsClosed(text, i)
    ensures MarkerSpans(text, from) != [] ==>
      var m := MarkerSpans(text, from)[0];
      && from <= m.start && IsMarker(text, m)
      && MarkerSpans(text, from)[1..] == MarkerSpans(text, m.end)
      && forall i :: from <= i < m.start ==> !OccursAt(text, OPEN, i)
  {
    FindMeans(text, OPEN, from);
    var found := Find(text, OPEN, from);
    if found.Some? {
      MarkerEndMeans(text, found.value);
    }
  }

  /** The prefix holds one opening bracket, at its start, and no closing one. */
  lemma PrefixChars(text: string, i: nat)
    requires OccursAt(text, OPEN, i)
    ensures text[i] == '['
    ensures forall j :: i < j < i + |OPEN| ==> text[j] != '[' && text[j] != ']'
  {
    var window := text[i..i + |OPEN|];
    assert window[0] == text[i];
    forall j | i < j < i + |OPEN| ensures text[j] != '[' && text[j] != ']' {
      assert text[j] == window[j - i];
    }
  }

  /** The scan finds exactly the marker list. */
  lemma {:induction false} ScanFindsMarkers(text: string, from: nat)
    ensures IsMarkerList(text, from, MarkerSpans(text, from))
    decreases |text| - from
  {
    NextMarker(text, from);
    hide MarkerSpans, OccursAt, IsClosed, Within;
    var spans := MarkerSpans(text, from);
    if spans != [] {
      var m, rest := spans[0], spans[1..];
      ScanFindsMarkers(text, m.end);
      assert spans == [m] + rest;
      forall i | from <= i && OccursAt(text, OPEN, i) && IsClosed(text, i) ensures Within(spans, i) {
        assert m.end <= i ==> Within(rest, i);
        WithinCons(m, rest, i);
      }
    }
  }

  lemma WithinCons(m: Span, rest: seq<Span>, i: nat)
    ensures Within([m] + rest, i) <==> m.start <= i < m.end || Within(rest, i)
  {
    var spans := [m] + rest;
    assert spans[0] == m;
    assert forall k :: 0 <= k < |rest| ==> spans[k + 1] == rest[k];
    assert forall k :: 1 <= k < |spans| ==> spans[k] == rest[k - 1];
  }

  /** A list without its first marker is a list from that marker's end. */
  lemma MarkerListTail(text: string, from: nat, spans: seq<Span>)
    requires IsMarkerList(text, from, spans) && spans != []
    ensures IsMarkerList(text, spans[0].end, spans[1..])
  {
    var m, rest := spans[0], spans[1..];
    assert spans == [m] + rest;
    forall i | m.end <= i && OccursAt(text, OPEN, i) && IsClosed(text, i) ensures Within(rest, i) {
      WithinCons(m, rest, i);
    }
  }

  /** The first marker of a list stands at the first closed prefix. */
  lemma FirstMarkers(text: string, from: nat, xs: seq<Span>, ys: seq<Span>)
    requires IsMarkerList(text, from, xs) && IsMarkerList(text, from, ys) && xs != []
    ensures ys != [] && ys[0].start <= xs[0].start && IsMarker(text, xs[0])
  {
    assert IsMarker(text, xs[0]);
    MarkerIsClosed(text, xs[0]);
    assert Within(ys, xs[0].start);
  }

  lemma MarkerIsClosed(text: string, m: Span)
    requires IsMarker(text, m)
    ensures IsClosed(text, m.start)
  {
    assert text[m.end - 1] == ']';
  }

  /** Two markers with the same start are the same. */
  lemma SameStart(text: string, m: Span, n: Span)
    requires IsMarker(text, m) && IsMarker(text, n) && m.start == n.start
    ensures m == n
  {
  }

  /** The declarative list has one solution, so any correct scanner finds the same spans. */
  lemma {:induction false} MarkerListIsUnique(text: string, from: nat, xs: seq<Span>, ys: seq<Span>)
    requires IsMarkerList(text, from, xs) && IsMarkerList(text, from, ys)
    ensures xs == ys
    decreases |xs|
  {
    hide IsMarkerList, IsMarker, OccursAt, IsClosed;
    if xs == [] {
      if ys != [] { FirstMarkers(text, from, ys, xs); }
    } else {
      FirstMarkers(text, from, xs, ys);
      FirstMarkers(text, from, ys, xs);
      SameStart(text, xs[0], ys[0]);
      MarkerListTail(text, from, xs);
      MarkerListTail(text, from, ys);
      MarkerListIsUnique(text, xs[0].end, xs[1..], ys[1..]);
      assert xs == [xs[0]] + xs[1..] && ys == [ys[0]] + ys[1..];
    }
  }

  // ----- offsets that cut no marker -----

  ghost predicate IsMarkerOf(text: string, m: Span) {
    m in MarkerSpans(text, 0)
  }

  ghost predicate InMarker(text: string, i: nat) {
    exists m :: IsMarkerOf(text, m) && m.start <= i < m.end
  }

  /** No marker of the text has `p` strictly inside it. */
  ghost predicate CutsNoMarker(text: string, p: nat) {
    forall m :: IsMarkerOf(text, m) ==> !(m.start < p < m.end)
  }

  lemma MarkersAreMarkers(text: string, m: Span)
    requires IsMarkerOf(text, m)
    ensures IsMarker(text, m)
  {
    ScanFindsMarkers(text, 0);
  }

  lemma MarkersAreDisjoint(text: string, m: Span, n: Span)
    requires IsMarkerOf(text, m) && IsMarkerOf(text, n)
    ensures m == n || m.end <= n.start || n.end <= m.start
  {
    hide IsMarker, Within, IsClosed, OccursAt, MarkerSpans;
    ScanFindsMarkers(text, 0);
  }

  lemma OverlapIsSame(text: string, m: Span, n: Span)
    requires IsMarkerOf(text, m) && IsMarkerOf(text, n) && m.end == n.end
    ensures m == n
  {
    MarkersAreDisjoint(text, m, n);
    MarkersAreMarkers(text, m);
    MarkersAreMarkers(text, n);
  }

  /** A closed prefix lies in a marker of the text. */
  lemma MarkerAround(text: string, i: nat) returns (m: Span)
    requires OccursAt(text, OPEN, i) && IsClosed(text, i)
    ensures IsMarkerOf(text, m) && IsMarker(text, m) && m.start <= i < m.end
  {
    ScanFindsMarkers(text, 0);
    var spans := MarkerSpans(text, 0);
    assert Within(spans, i);
    var k :| 0 <= k < |spans| && spans[k].start <= i < spans[k].end;
    m := spans[k];
  }

  /** A closed prefix met at an offset that cuts no marker starts a marker of the text. */
  lemma MarkerAtCleanOffset(text: string, p: nat)
    requires CutsNoMarker(text, p) && OccursAt(text, OPEN, p)
    ensures var end := MarkerEnd(text, p);
      end.Some? ==> IsMarkerOf(text, Span(p, end.value)) && CutsNoMarker(text, end.value)
  {
    MarkerEndMeans(text, p);
    var end := MarkerEnd(text, p);
    if end.Some? {
      var m := MarkerAround(text, p);
      assert m.start == p;
      SameStart(text, m, Span(p, end.value));
      forall n | IsMarkerOf(text, n) ensures !(n.start < end.value < n.end) {
        MarkersAreDisjoint(text, m, n);
      }
    }
  }

  /** Stepping over a character that starts no prefix stays at a clean offset. */
  lemma StepStaysClean(text: string, p: nat)
    requires CutsNoMarker(text, p) && !OccursAt(text, OPEN, p)
    ensures CutsNoMarker(text, p + 1)
  {
    forall n | IsMarkerOf(text, n) ensures !(n.start < p + 1 < n.end) {
      MarkersAreMarkers(text, n);
    }
  }

  lemma EndIsClean(text: string)
    ensures CutsNoMarker(text, 0) && CutsNoMarker(text, |text|)
  {
    forall n | IsMarkerOf(text, n) ensures !(n.start < |text| < n.end) {
      MarkersAreMarkers(text, n);
    }
  }

  /** A marker of the whole text that starts in a clean piece is a marker there too. */
  lemma WholeMarkerInPiece(text: string, lo: nat, hi: nat, m: Span)
    requires lo <= hi <= |text| && CutsNoMarker(text, hi)
    requires IsMarkerOf(text, m) && lo <= m.start < hi
    ensures m.end <= hi && OccursAt(text[lo..hi], OPEN, m.start - lo) && IsClosed(text[lo..hi], m.start - lo)
  {
    MarkersAreMarkers(text, m);
    OccursInSlice(text, OPEN, lo, hi, m.start - lo);
    assert text[lo..hi][m.end - 1 - lo] == text[m.end - 1];
  }

  /** A prefix nested inside a marker runs to that marker's end. */
  lemma NestedPrefix(text: string, m: Span, i: nat)
    requires IsMarker(text, m) && OccursAt(text, OPEN, i) && m.start <= i < m.end
    ensures IsMarker(text, Span(i, m.end))
  {
    PrefixChars(text, i);
  }

  /** A marker of a clean piece lies, in the whole text, in a marker with the same end. */
  lemma EnclosingMarker(text: string, lo: nat, hi: nat, p: Span) returns (m: Span)
    requires lo <= hi <= |text| && CutsNoMarker(text, lo)
    requires IsMarkerOf(text[lo..hi], p)
    ensures IsMarkerOf(text, m) && IsMarker(text, m)
    ensures lo <= m.start <= lo + p.start < lo + p.end == m.end <= hi
  {
    MarkersAreMarkers(text[lo..hi], p);
    MarkerInLargerText(text, lo, hi, p);
    var q := Span(lo + p.start, lo + p.end);
    MarkerIsClosed(text, q);
    m := MarkerAround(text, q.start);
    NestedPrefix(text, m, q.start);
    SameStart(text, Span(q.start, m.end), q);
  }

  /** A marker of a clean piece is a marker of the whole text. */
  lemma PieceMarkerInWhole(text: string, lo: nat, hi: nat, p: Span)
    requires lo <= hi <= |text| && CutsNoMarker(text, lo) && CutsNoMarker(text, hi)
    requires IsMarkerOf(text[lo..hi], p)
    ensures IsMarkerOf(text, Span(lo + p.start, lo + p.end))
  {
    hide OccursAt, IsMarker, IsClosed;
    var m := EnclosingMarker(text, lo, hi, p);
    WholeMarkerInPiece(text, lo, hi, m);
    var e := MarkerAround(text[lo..hi], m.start - lo);
    var n := EnclosingMarker(text, lo, hi, e);
    MarkersAreDisjoint(text, m, n);
    OverlapIsSame(text[lo..hi], e, p);
  }

  lemma MarkerInLargerText(text: string, lo: nat, hi: nat, p: Span)
    requires lo <= hi <= |text| && IsMarker(text[lo..hi], p)
    ensures IsMarker(text, Span(lo + p.start, lo + p.end))
  {
    var piece := text[lo..hi];
    OccursInSlice(text, OPEN, lo, hi, p.start);
    forall j | lo + p.start + |OPEN| <= j < lo + p.end - 1 ensures text[j] != ']' {
      assert piece[j - lo] == text[j];
    }
    assert piece[p.end - 1] == text[lo + p.end - 1];
  }

  /**
   Scanning a piece that cuts no marker finds the markers of the whole text
   that lie in the piece, and nothing else.
   */
  lemma PieceMarkers(text: string, lo: nat, hi: nat, m: Span)
    requires lo <= hi <= |text| && CutsNoMarker(text, lo) && CutsNoMarker(text, hi)
    ensures IsMarkerOf(text[lo..hi], m) <==> lo + m.end <= hi && IsMarkerOf(text, Span(lo + m.start, lo + m.end))
  {
    hide OccursAt, IsClosed;
    var piece, whole := text[lo..hi], Span(lo + m.start, lo + m.end);
    if IsMarkerOf(piece, m) {
      PieceMarkerInWhole(text, lo, hi, m);
      MarkersAreMarkers(piece, m);
    }
    if lo + m.end <= hi && IsMarkerOf(text, whole) {
      MarkersAreMarkers(text, whole);
      WholeMarkerInPiece(text, lo, hi, whole);
      var p := MarkerAround(piece, m.start);
      PieceMarkerInWhole(text, lo, hi, p);
      MarkersAreDisjoint(text, whole, Span(lo + p.start, lo + p.end));
    }
  }

  /** An offset of a clean piece is in one of the piece's markers iff it is in one of the whole text. */
  lemma PieceOffsets(text: string, lo: nat, hi: nat, i: nat)
    requires lo <= i < hi <= |text| && CutsNoMarker(text, lo) && CutsNoMarker(text, hi)
    ensures InMarker(text[lo..hi], i - lo) <==> InMarker(text, i)
  {
    hide IsMarkerOf;
    if InMarker(text, i) {
      var m :| IsMarkerOf(text, m) && m.start <= i < m.end;
      assert lo <= m.start && m.end <= hi;
      PieceMarkers(text, lo, hi, Span(m.start - lo, m.end - lo));
    }
    if InMarker(text[lo..hi], i - lo) {
      var p :| IsMarkerOf(text[lo..hi], p) && p.start <= i - lo < p.end;
      PieceMarkers(text, lo, hi, p);
    }
  }

  // ----- parsing -----

  datatype ParsedCitation = ParsedCitation(
    rawMarker: string,
    sourceId: string,
    startIndex: nat,
    endIndex: nat,
    validSyntax: bool,
    duplicate: bool)

  predicate IsValidSourceId(id: string) {
    && id != []
    && StartsWith(id, "law:")
    && Contains(id, ":art:")
    && !Contains(id, "..")
    && !Contains(id, ",")
    && AllChars(id, c => IsAsciiAlphanumeric(c) || c in ":-_./")
  }

  /** The identifier a marker names: its text between prefix and bracket, trimmed. */
  function MarkerId(text: string, m: Span): string
    requires m.start + |OPEN| < m.end <= |text|
  {
    Trim(text[m.start + |OPEN|..m.end - 1])
  }

  ghost predicate InBounds(text: string, spans: seq<Span>) {
    forall k :: 0 <= k < |spans| ==> spans[k].start + |OPEN| < spans[k].end <= |text|
  }

  lemma SpansInBounds(text: string, from: nat)
    ensures InBounds(text, MarkerSpans(text, from))
  {
    ScanFindsMarkers(text, from);
  }

  /** The identifiers named by the first `k` markers. */
  ghost function NamedBy(text: string, spans: seq<Span>, k: nat): set<string>
    requires k <= |spans| && InBounds(text, spans)
  {
    if k == 0 then {} else NamedBy(text, spans, k - 1) + {MarkerId(text, spans[k - 1])}
  }

  /** What parsing reports for the k-th marker of an answer. */
  ghost function Report(answer: string, spans: seq<Span>, k: nat): ParsedCitation
    requires k < |spans| && InBounds(answer, spans)
  {
    var m := spans[k];
    var id := MarkerId(answer, m);
    ParsedCitation(answer[m.start..m.end], id, m.start, m.end, IsValidSourceId(id), id in NamedBy(answer, spans, k))
  }

  ghost function Reports(answer: string, spans: seq<Span>, n: nat): (r: seq<ParsedCitation>)
    requires n <= |spans| && InBounds(answer, spans)
    ensures |r| == n
  {
    if n == 0 then [] else Reports(answer, spans, n - 1) + [Report(answer, spans, n - 1)]
  }

  lemma {:induction false} ReportsAt(answer: string, spans: seq<Span>, n: nat)
    requires n <= |spans| && InBounds(answer, spans)
    ensures forall k :: 0 <= k < n ==> Reports(answer, spans, n)[k] == Report(answer, spans, k)
  {
    hide Report;
    if n > 0 { ReportsAt(answer, spans, n - 1); }
  }

  /** One report per marker of the answer, in order. */
  ghost function ParsedMarkers(answer: string): (r: seq<ParsedCitation>)
    ensures |r| == |MarkerSpans(answer, 0)|
  {
    var spans := MarkerSpans(answer, 0);
    SpansInBounds(answer, 0);
    Reports(answer, spans, |spans|)
  }

  lemma {:induction false} NamedByMeans(text: string, spans: seq<Span>, k: nat, id: string)
    requires k <= |spans| && InBounds(text, spans)
    ensures id in NamedBy(text, spans, k) <==> exists j :: 0 <= j < k && MarkerId(text, spans[j]) == id
    decreases k
  {
    hide MarkerId;
    if k > 0 { NamedByMeans(text, spans, k - 1, id); }
  }

  /** The k-th report spans the k-th marker, and is a duplicate iff an earlier report has its identifier. */
  lemma ReportsDescribeMarkers(answer: string, k: nat)
    requires k < |ParsedMarkers(answer)|
    ensures var reports := ParsedMarkers(answer);
      && IsMarkerOf(answer, Span(reports[k].startIndex, reports[k].endIndex))
      && reports[k].startIndex <= reports[k].endIndex <= |answer|
      && reports[k].rawMarker == answer[reports[k].startIndex..reports[k].endIndex]
      && (forall j :: 0 <= j < k ==> reports[j].endIndex <= reports[k].startIndex)
      && (reports[k].duplicate <==> exists j :: 0 <= j < k && reports[j].sourceId == reports[k].sourceId)
  {
    hide MarkerId, NamedBy, IsValidSourceId, MarkerSpans, IsMarker;
    var spans, reports := MarkerSpans(answer, 0), ParsedMarkers(answer);
    ScanFindsMarkers(answer, 0);
    SpansInBounds(answer, 0);
    ReportsAt(answer, spans, |spans|);
    NamedByMeans(answer, spans, k, reports[k].sourceId);
    assert forall j :: 0 <= j <= k ==> reports[j].sourceId == MarkerId(answer, spans[j]);
  }

  lemma NoReports(answer: string, spans: seq<Span>)
    requires InBounds(answer, spans)
    ensures Reports(answer, spans, 0) == [] && NamedBy(answer, spans, 0) == {}
  {
  }

  lemma NextReport(answer: string, spans: seq<Span>, k: nat)
    requires k < |spans| && InBounds(answer, spans)
    ensures Reports(answer, spans, k + 1) == Reports(answer, spans, k) + [Report(answer, spans, k)]
    ensures NamedBy(answer, spans, k + 1) == NamedBy(answer, spans, k) + {MarkerId(answer, spans[k])}
  {
    hide Report, MarkerId;
  }

  method ParseSourceMarkers(answer: string) returns (citations: seq<ParsedCitation>)
    ensures citations == ParsedMarkers(answer)
  {
    hide MarkerId, IsValidSourceId, MarkerSpans, Reports, NamedBy;
    ghost var all := MarkerSpans(answer, 0);
    SpansInBounds(answer, 0);
    citations := [];
    var seen: set<string> := {};
    var offset := 0;
    assert citations == Reports(answer, all, 0) && seen == NamedBy(answer, all, 0) by { NoReports(answer, all); }
    while true
      invariant offset <= |answer|
      invariant |citations| <= |all| && all[|citations|..] == MarkerSpans(answer, offset)
      invariant citations == Reports(answer, all, |citations|)
      invariant seen == NamedBy(answer, all, |citations|)
      decreases |answer| - offset
    {
      ScanStep(answer, offset);
      var found := Find(answer, OPEN, offset);
      if found.None? { break; }
      var start := found.value;
      var markerEnd := MarkerEnd(answer, start);
      if markerEnd.None? { break; }
      var end := markerEnd.value;
      var sourceId := MarkerId(answer, Span(start, end));
      ghost var k := |citations|;
      assert all[k] == all[k..][0] == Span(start, end);
      assert all[k + 1..] == all[k..][1..];
      NextReport(answer, all, k);
      citations := citations + [
        ParsedCitation(answer[start..end], sourceId, start, end, IsValidSourceId(sourceId), sourceId in seen)];
      seen := seen + {sourceId};
      offset := end;
    }
  }

  // ----- removal -----

  /** The text outside the spans, from an offset on. */
  function Outside(text: string, spans: seq<Span>, from: nat): string
    decreases |spans|
  {
    if from > |text| then []
    else if spans == [] || !(from <= spans[0].start <= |text|) then text[from..]
    else text[from..spans[0].start] + Outside(text, spans[1..], spans[0].end)
  }

  function RemoveSourceMarkers(answer: string): string
    decreases |answer|
  {
    match Find(answer, OPEN, 0)
    case None => answer
    case Some(start) =>
      match MarkerEnd(answer, start)
      case None => answer[..start] + answer[start..]
      case Some(end) => answer[..start] + RemoveSourceMarkers(answer[end..])
  }

  method RemoveSourceMarkersLoop(answer: string) returns (result: string)
    ensures result == RemoveSourceMarkers(answer)
  {
    hide Find, OccursAt;
    var remainder := answer;
    result := "";
    while true
      invariant result + RemoveSourceMarkers(remainder) == RemoveSourceMarkers(answer)
      decreases |remainder|
    {
      var found := Find(remainder, OPEN, 0);
      if found.None? { break; }
      var start := found.value;
      result := result + remainder[..start];
      var close := Find(remainder, CLOSE, start + |OPEN|);
      if close.None? {
        result := result + remainder[start..];
        return;
      }
      remainder := remainder[close.value + 1..];
    }
    result := result + remainder;
  }

  /** Removal keeps exactly the text outside the markers, an unclosed tail included. */
  lemma {:induction false} RemovalKeepsGaps(answer: string, from: nat)
    requires from <= |answer|
    ensures RemoveSourceMarkers(answer[from..]) == Outside(answer, MarkerSpans(answer, from), from)
    decreases |answer| - from
  {
    RemovalStep(answer, from);
    ScanStep(answer, from);
    var spans := MarkerSpans(answer, from);
    if spans != [] {
      assert spans[1..] == MarkerSpans(answer, spans[0].end);
      RemovalKeepsGaps(answer, spans[0].end);
    }
  }

  /** One step of removal on a suffix, in offsets of the whole text. */
  lemma RemovalStep(answer: string, from: nat)
    requires from <= |answer|
    ensures var found := Find(answer, OPEN, from);
      var end := if found.Some? then MarkerEnd(answer, found.value) else None;
      if end.None? then RemoveSourceMarkers(answer[from..]) == answer[from..]
      else RemoveSourceMarkers(answer[from..]) == answer[from..found.value] + RemoveSourceMarkers(answer[end.value..])
  {
    hide Find, OccursAt;
    var rest := answer[from..];
    FindInSuffix(answer, OPEN, from, 0);
    var found := Find(answer, OPEN, from);
    if found.Some? {
      var start := found.value;
      FindInSuffix(answer, CLOSE, from, start - from + |OPEN|);
      assert rest[..start - from] == answer[from..start];
      var end := MarkerEnd(answer, start);
      if end.Some? {
        assert rest[end.value - from..] == answer[end.value..];
        assert Find(rest, OPEN, 0) == Some(start - from) && MarkerEnd(rest, start - from) == Some(end.value - from);
        assert RemoveSourceMarkers(rest) == rest[..start - from] + RemoveSourceMarkers(rest[end.value - from..]);
      } else {
        assert rest[..start - from] + rest[start - from..] == rest;
      }
    }
  }

  /** The gaps and the raw markers, interleaved in order, rebuild the text. */
  function Interleave(text: string, spans: seq<Span>, from: nat, raw: seq<string>): string
    requires |raw| == |spans|
    decreases |spans|
  {
    if from > |text| then []
    else if spans == [] || !(from <= spans[0].start <= |text|) then text[from..]
    else text[from..spans[0].start] + raw[0] + Interleave(text, spans[1..], spans[0].end, raw[1..])
  }

  lemma {:induction false} InterleavingRebuilds(text: string, spans: seq<Span>, from: nat, raw: seq<string>)
    requires Ordered(spans, from) && from <= |text|
    requires |raw| == |spans|
    requires forall k :: 0 <= k < |spans| ==> spans[k].end <= |text| && raw[k] == text[spans[k].start..spans[k].end]
    ensures Interleave(text, spans, from, raw) == text[from..]
    decreases |spans|
  {
    if spans != [] {
      var m := spans[0];
      assert raw[0] == text[m.start..m.end];
      InterleavingRebuilds(text, spans[1..], m.end, raw[1..]);
      assert text[from..m.start] + text[m.start..m.end] + text[m.end..] == text[from..];
    }
  }

  /** Marker conservation: nothing of an answer is lost or invented between parsing and removal. */
  lemma MarkerConservation(answer: string, citations: seq<ParsedCitation>)
    requires citations == ParsedMarkers(answer)
    ensures forall j, k :: 0 <= j < k < |citations| ==> citations[j].endIndex <= citations[k].startIndex
    ensures var raw := seq(|citations|, k requires 0 <= k < |citations| => citations[k].rawMarker);
      Interleave(answer, MarkerSpans(answer, 0), 0, raw) == answer
    ensures RemoveSourceMarkers(answer) == Outside(answer, MarkerSpans(answer, 0), 0)
  {
    hide IsValidSourceId, MarkerId, NamedBy, IsMarker;
    SpansInBounds(answer, 0);
    ScanFindsMarkers(answer, 0);
    RemovalKeepsGaps(answer, 0);
    assert answer[0..] == answer;
    ReportsAt(answer, MarkerSpans(answer, 0), |MarkerSpans(answer, 0)|);
    var raw := seq(|citations|, k requires 0 <= k < |citations| => citations[k].rawMarker);
    InterleavingRebuilds(answer, MarkerSpans(answer, 0), 0, raw);
  }

  /** The characters outside ordered spans. */
  lemma {:induction false} OutsideChars(text: string, spans: seq<Span>, from: nat, c: char)
    requires Ordered(spans, from) && from <= |text|
    requires forall k :: 0 <= k < |spans| ==> spans[k].end <= |text|
    ensures c in Outside(text, spans, from) <==>
      exists i :: from <= i < |text| && text[i] == c && !Within(spans, i)
    decreases |spans|
  {
    if spans == [] {
      SliceChars(text, from, |text|, c);
    } else {
      var m, rest := spans[0], spans[1..];
      assert spans == [m] + rest;
      OutsideChars(text, rest, m.end, c);
      SliceChars(text, from, m.start, c);
      forall i | from <= i < |text| ensures Within(spans, i) <==> m.start <= i < m.end || Within(rest, i) {
        WithinCons(m, rest, i);
      }
      assert forall i :: Within(rest, i) ==> m.end <= i;
    }
  }

  lemma SliceChars(text: string, lo: nat, hi: nat, c: char)
    requires lo <= hi <= |text|
    ensures c in text[lo..hi] <==> exists i :: lo <= i < hi && text[i] == c
  {
    var slice := text[lo..hi];
    assert forall i :: lo <= i < hi ==> slice[i - lo] == text[i];
  }

  /** What removal keeps, character by character. */
  lemma RemovedChars(answer: string, c: char)
    ensures c in RemoveSourceMarkers(answer) <==>
      exists i :: 0 <= i < |answer| && answer[i] == c && !InMarker(answer, i)
  {
    ScanFindsMarkers(answer, 0);
    RemovalKeepsGaps(answer, 0);
    assert answer[0..] == answer;
    var spans := MarkerSpans(answer, 0);
    OutsideChars(answer, spans, 0, c);
    forall i: nat ensures InMarker(answer, i) <==> Within(spans, i) {
      if Within(spans, i) {
        var k :| 0 <= k < |spans| && spans[k].start <= i < spans[k].end;
        assert IsMarkerOf(answer, spans[k]);
      }
    }
  }
}
