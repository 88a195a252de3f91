/** The chat stream of the browser client: an incremental line reader whose output does not depend on the chunks. */
module LineStream {
  import opened Wrappers
  import opened Text
  import opened StreamMessages

  // ----- splitting at LF or CRLF -----

  datatype Break = Break(start: nat, end: nat)

  /** The leftmost line break at or after an offset. */
  function NextBreak(text: string, from: nat): (r: Option<Break>)
    ensures r.Some? ==> from <= r.value.start < r.value.end <= |text|
    decreases |text| - from
  {
    if from >= |text| then None
    else if text[from] == '\n' then Some(Break(from, from + 1))
    else if text[from] == '\r' && from + 1 < |text| && text[from + 1] == '\n' then Some(Break(from, from + 2))
    else NextBreak(text, from + 1)
  }

  function SplitLines(text: string): (parts: seq<string>)
    ensures parts != []
    decreases |text|
  {
    match NextBreak(text, 0)
    case None => [text]
    case Some(b) => [text[..b.start]] + SplitLines(text[b.end..])
  }

  function Init<T>(xs: seq<T>): seq<T>
    requires xs != []
  {
    xs[..|xs| - 1]
  }

  function Last<T>(xs: seq<T>): T
    requires xs != []
  {
    xs[|xs| - 1]
  }

  /** The lines of a complete text: an empty rest after the last break is no line. */
  function WholeLines(text: string): seq<string> {
    var parts := SplitLines(text);
    Init(parts) + if Last(parts) == "" then [] else [Last(parts)]
  }

  /** A break found in the front of a text is found in the whole. */
  lemma {:induction false} BreakInFront(front: string, back: string, from: nat)
    requires NextBreak(front, from).Some?
    ensures NextBreak(front + back, from) == NextBreak(front, from)
    decreases |front| - from
  {
    var text := front + back;
    assert forall i :: 0 <= i < |front| ==> text[i] == front[i];
    if NextBreak(front, from) == NextBreak(front, from + 1) && front[from] != '\n' {
      BreakInFront(front, back, from + 1);
    }
  }

  /** Splitting the front first, and then its unfinished last line with the back, is splitting the whole. */
  lemma {:induction false} SplitInTwo(front: string, back: string)
    ensures SplitLines(front + back) == Init(SplitLines(front)) + SplitLines(Last(SplitLines(front)) + back)
    decreases |front|
  {
    match NextBreak(front, 0) {
      case None =>
      case Some(b) =>
        BreakInFront(front, back, 0);
        var text := front + back;
        assert text[..b.start] == front[..b.start];
        assert text[b.end..] == front[b.end..] + back;
        SplitInTwo(front[b.end..], back);
        var rest := SplitLines(front[b.end..]);
        assert Init(SplitLines(front)) == [front[..b.start]] + Init(rest);
        assert Last(SplitLines(front)) == Last(rest);
    }
  }

  /** What `NextBreak` finds: the first LF, with a CR in front of it if there is one. */
  lemma {:induction false} BreakMeans(text: string, from: nat)
    ensures match NextBreak(text, from)
      case None => forall i :: from <= i < |text| ==> text[i] != '\n'
      case Some(b) =>
        && (forall i :: from <= i < b.end - 1 ==> text[i] != '\n') && text[b.end - 1] == '\n'
        && (b.start == b.end - 1 || (b.start == b.end - 2 && text[b.start] == '\r'))
        && (b.start == b.end - 1 && from < b.start ==> text[b.start - 1] != '\r')
    decreases |text| - from
  {
    if from < |text| { BreakMeans(text, from + 1); }
  }

  /** Lines put together again with the breaks between them. */
  function Woven(parts: seq<string>, breaks: seq<string>): string
    requires |parts| == |breaks| + 1
  {
    if breaks == [] then parts[0] else parts[0] + breaks[0] + Woven(parts[1..], breaks[1..])
  }

  /** No line holds an LF, every break is LF or CRLF, and a CR in front of an LF belongs to the break. */
  ghost predicate AreLines(text: string, parts: seq<string>, breaks: seq<string>) {
    && |parts| == |breaks| + 1 && Woven(parts, breaks) == text
    && (forall i :: 0 <= i < |parts| ==> '\n' !in parts[i])
    && (forall i :: 0 <= i < |breaks| ==> breaks[i] == "\r\n" || (breaks[i] == "\n" && !EndsWith(parts[i], "\r")))
  }

  /** The lines of a text are the one way to cut it at its breaks. */
  lemma {:induction false} LinesAreExact(text: string, parts: seq<string>)
    ensures parts == SplitLines(text) <==> exists breaks :: AreLines(text, parts, breaks)
    decreases |text|
  {
    if parts == SplitLines(text) {
      var breaks := BreaksOf(text);
      assert AreLines(text, parts, breaks);
    }
    if breaks :| AreLines(text, parts, breaks) {
      LinesAreUnique(text, parts, breaks);
    }
  }

  lemma {:induction false} BreaksOf(text: string) returns (breaks: seq<string>)
    ensures AreLines(text, SplitLines(text), breaks)
    decreases |text|
  {
    hide AreLines, NextBreak;
    match NextBreak(text, 0) {
      case None =>
        breaks := [];
        OneLine(text);
      case Some(b) =>
        var rest := BreaksOf(text[b.end..]);
        breaks := [text[b.start..b.end]] + rest;
        FirstLine(text, b);
        MoreLines(text[..b.start], text[b.start..b.end], text[b.end..], SplitLines(text[b.end..]), rest);
        assert text == text[..b.start] + text[b.start..b.end] + text[b.end..];
    }
  }

  lemma OneLine(text: string)
    requires NextBreak(text, 0).None?
    ensures AreLines(text, [text], [])
  {
    BreakMeans(text, 0);
  }

  lemma MoreLines(line: string, break0: string, rest: string, parts: seq<string>, breaks: seq<string>)
    requires AreLines(rest, parts, breaks) && '\n' !in line
    requires break0 == "\r\n" || (break0 == "\n" && !EndsWith(line, "\r"))
    ensures AreLines(line + break0 + rest, [line] + parts, [break0] + breaks)
  {
    hide EndsWith;
    assert ([line] + parts)[1..] == parts && ([break0] + breaks)[1..] == breaks;
  }

  lemma FirstLine(text: string, b: Break)
    requires NextBreak(text, 0) == Some(b)
    ensures '\n' !in text[..b.start]
    ensures text[b.start..b.end] == "\r\n" || (text[b.start..b.end] == "\n" && !EndsWith(text[..b.start], "\r"))
  {
    BreakMeans(text, 0);
    var line := text[..b.start];
    if line != [] { assert line[|line| - 1..] == [text[b.start - 1]]; }
  }

  lemma {:induction false} LinesAreUnique(text: string, parts: seq<string>, breaks: seq<string>)
    requires AreLines(text, parts, breaks)
    ensures parts == SplitLines(text)
    decreases |breaks|
  {
    BreakMeans(text, 0);
    if breaks == [] {
      assert parts == [text];
    } else {
      var line, break0, rest := parts[0], breaks[0], Woven(parts[1..], breaks[1..]);
      assert text == line + break0 + rest;
      FirstBreak(text, line, break0, rest);
      assert text[|line| + |break0|..] == rest && text[..|line|] == line;
      LinesAreUnique(rest, parts[1..], breaks[1..]);
      assert parts == [line] + parts[1..];
    }
  }

  lemma FirstBreak(text: string, line: string, break0: string, rest: string)
    requires text == line + break0 + rest && '\n' !in line
    requires break0 == "\r\n" || (break0 == "\n" && !EndsWith(line, "\r"))
    ensures NextBreak(text, 0) == Some(Break(|line|, |line| + |break0|))
  {
    hide NextBreak;
    BreakMeans(text, 0);
    var lf := |line| + |break0| - 1;
    assert text[lf] == '\n' && forall i :: 0 <= i < lf ==> text[i] != '\n';
    assert break0 == "\r\n" ==> text[lf - 1] == '\r';
    assert break0 == "\n" && line != [] ==> line[|line| - 1..] == [text[lf - 1]];
  }

  // ----- reading chunk by chunk -----

  function Concat(chunks: seq<string>): string {
    if chunks == [] then "" else Concat(chunks[..|chunks| - 1]) + chunks[|chunks| - 1]
  }

  /** The lines completed by the first `n` chunks, and the unfinished rest. */
  ghost function Completed(chunks: seq<string>, n: nat): seq<string>
    requires n <= |chunks|
  {
    Init(SplitLines(Concat(chunks[..n])))
  }

  ghost function Unfinished(chunks: seq<string>, n: nat): string
    requires n <= |chunks|
  {
    Last(SplitLines(Concat(chunks[..n])))
  }

  lemma ConcatNext(chunks: seq<string>, n: nat)
    requires n < |chunks|
    ensures Concat(chunks[..n + 1]) == Concat(chunks[..n]) + chunks[n]
  {
    assert chunks[..n + 1][..n] == chunks[..n];
  }

  /** What reading one more chunk completes. */
  lemma OneMoreChunk(chunks: seq<string>, n: nat)
    requires n < |chunks|
    ensures var parts := SplitLines(Unfinished(chunks, n) + chunks[n]);
      && Completed(chunks, n + 1) == Completed(chunks, n) + Init(parts)
      && Unfinished(chunks, n + 1) == Last(parts)
  {
    hide SplitLines, Concat;
    ConcatNext(chunks, n);
    var read, chunk := Concat(chunks[..n]), chunks[n];
    SplitInTwo(read, chunk);
    InitOfConcat(Init(SplitLines(read)), SplitLines(Last(SplitLines(read)) + chunk));
  }

  lemma InitOfConcat(front: seq<string>, back: seq<string>)
    requires back != []
    ensures Init(front + back) == front + Init(back) && Last(front + back) == Last(back)
  {
  }

  lemma CompletedIsPrefix(chunks: seq<string>, n: nat)
    requires n <= |chunks|
    ensures Completed(chunks, n) <= WholeLines(Concat(chunks))
  {
    hide SplitLines, Concat;
    PrefixLines(chunks, n);
  }

  lemma StreamEnds(chunks: seq<string>)
    ensures Completed(chunks, 0) == [] && Unfinished(chunks, 0) == ""
    ensures var rest := Unfinished(chunks, |chunks|);
      WholeLines(Concat(chunks)) == Completed(chunks, |chunks|) + if rest == "" then [] else [rest]
  {
    assert chunks[..0] == [] && chunks[..|chunks|] == chunks;
  }

  /** How a stream ends: read to its end, abandoned at a failing session check, or broken off by a null line. */
  datatype Ending = Finished | Aborted | Crashed

  /**
   Reads chunks, consuming complete lines. `current(k)` tells whether the k-th
   check of the session epoch still finds the epoch the stream began in; the
   stamps are the checks under which the lines were consumed.
   */
  method StreamChat(parse: string -> Option<Message>, chunks: seq<string>, current: nat -> bool)
    returns (
      events: seq<StreamEvent>, ending: Ending, ghost consumed: seq<string>, ghost stamps: seq<nat>, ghost checks: nat)
    ensures var lines := WholeLines(Concat(chunks));
      var crash := FirstCrash(parse, lines);
      && events <= EventsOf(parse, lines[..crash])
      && (!ending.Aborted? ==> events == EventsOf(parse, lines[..crash]))
      && (ending.Finished? ==> crash == |lines|) && (ending.Crashed? ==> crash < |lines|)
      && (ending.Finished? <==> crash == |lines| && forall k :: 0 <= k < checks ==> current(k))
    ensures (forall k :: current(k)) ==> var lines := WholeLines(Concat(chunks));
      ending == if FirstCrash(parse, lines) == |lines| then Finished else Crashed
    ensures ending.Aborted? <==> exists k :: 0 <= k < checks && !current(k)
    ensures forall k :: 0 <= k < checks - 1 ==> current(k)
    ensures events == EventsOf(parse, consumed) && consumed <= WholeLines(Concat(chunks))
    ensures AreEventsOf(parse, consumed, events)
    ensures !ending.Aborted? ==> AreEventsBeforeNull(parse, WholeLines(Concat(chunks)), events)
    ensures |stamps| == |consumed| && forall i :: 0 <= i < |stamps| ==> stamps[i] < checks && current(stamps[i])
  {
    hide SplitLines, Concat, Completed, Unfinished, Delivered, EventsOf, WholeLines, Crashes, FirstCrash, AreEventsOf,
      AreEventsBeforeNull;
    StreamEnds(chunks);
    EventsOfNext(parse, [], "");
    ghost var whole := WholeLines(Concat(chunks));
    events, ending, consumed, stamps, checks := [], Finished, [], [], 0;
    var buffer := "";
    var check := 0;
    var n := 0;
    while n < |chunks|
      invariant 0 <= n <= |chunks| && ending.Finished?
      invariant consumed == Completed(chunks, n) && buffer == Unfinished(chunks, n)
      invariant IsProgress(parse, current, events, consumed, stamps, check)
    {
      OneMoreChunk(chunks, n);
      CompletedIsPrefix(chunks, n + 1);
      ghost var earlier := consumed;
      if !current(check) {
        ending, checks := Aborted, check + 1;
        StopsEarly(parse, whole, consumed);
        return;
      }
      check := check + 1;
      var parts := SplitLines(buffer + chunks[n]);
      var lines := Init(parts);
      var j := 0;
      while j < |lines|
        invariant 0 <= j <= |lines| && ending.Finished?
        invariant consumed == earlier + lines[..j]
        invariant IsProgress(parse, current, events, consumed, stamps, check)
      {
        if !current(check) {
          ending, checks := Aborted, check + 1;
          StopsEarly(parse, whole, consumed);
          return;
        }
        assert whole[|consumed|] == lines[j];
        if Crashes(parse, lines[j]) {
          ending, checks := Crashed, check + 1;
          StopsEarly(parse, whole, consumed);
          return;
        }
        EventsOfNext(parse, consumed, lines[j]);
        events := events + Delivered(parse, lines[j]);
        consumed := consumed + [lines[j]];
        stamps := stamps + [check];
        check := check + 1;
        j := j + 1;
      }
      buffer := Last(parts);
      n := n + 1;
    }
    if buffer != "" {
      if !current(check) {
        ending, checks := Aborted, check + 1;
        StopsEarly(parse, whole, consumed);
        return;
      }
      check := check + 1;
      if !current(check) {
        ending, checks := Aborted, check + 1;
        StopsEarly(parse, whole, consumed);
        return;
      }
      assert whole[|consumed|] == buffer;
      if Crashes(parse, buffer) {
        ending, checks := Crashed, check + 1;
        StopsEarly(parse, whole, consumed);
        return;
      }
      EventsOfNext(parse, consumed, buffer);
      events := events + Delivered(parse, buffer);
      consumed := consumed + [buffer];
      stamps := stamps + [check];
      check := check + 1;
    }
    checks := check;
    assert consumed == whole;
    StopsEarly(parse, whole, consumed);
  }

  /** Between two lines: every check so far passed, and every consumed line was delivered under one of them. */
  ghost predicate IsProgress(
    parse: string -> Option<Message>, current: nat -> bool,
    events: seq<StreamEvent>, consumed: seq<string>, stamps: seq<nat>, check: nat)
  {
    && events == EventsOf(parse, consumed)
    && (forall i :: 0 <= i < |consumed| ==> !Crashes(parse, consumed[i]))
    && (forall k :: 0 <= k < check ==> current(k))
    && |stamps| == |consumed| && forall i :: 0 <= i < |stamps| ==> stamps[i] < check
  }

  /** Lines that did not crash are in front of the first crash, and deliver a prefix of what all of those deliver. */
  lemma StopsEarly(parse: string -> Option<Message>, whole: seq<string>, consumed: seq<string>)
    requires consumed <= whole && forall i :: 0 <= i < |consumed| ==> !Crashes(parse, consumed[i])
    ensures var crash := FirstCrash(parse, whole);
      && |consumed| <= crash && consumed <= whole[..crash]
      && EventsOf(parse, consumed) <= EventsOf(parse, whole[..crash])
      && (|consumed| == |whole| || Crashes(parse, whole[|consumed|]) ==>
        crash == |consumed| && whole[..crash] == consumed
        && AreEventsBeforeNull(parse, whole, EventsOf(parse, consumed)))
      && AreEventsOf(parse, consumed, EventsOf(parse, consumed))
  {
    hide Crashes, EventsOf, CrashFrom, AreEventsOf, IsFirstNull;
    EventsMean(parse, consumed);
    EventsMean(parse, whole);
    CrashFromMeans(parse, whole, 0);
    EventsOfPrefix(parse, consumed, whole[..FirstCrash(parse, whole)]);
  }

  /** The complete lines of a front are complete lines of the whole. */
  lemma WholePrefix(front: string, back: string)
    ensures Init(SplitLines(front)) <= Init(SplitLines(front + back))
  {
    SplitInTwo(front, back);
    var rest := SplitLines(Last(SplitLines(front)) + back);
    assert Init(Init(SplitLines(front)) + rest) == Init(SplitLines(front)) + Init(rest);
  }

  lemma {:induction false} PrefixLines(chunks: seq<string>, n: nat)
    requires n <= |chunks|
    ensures Init(SplitLines(Concat(chunks[..n]))) <= Init(SplitLines(Concat(chunks)))
    decreases |chunks| - n
  {
    if n == |chunks| {
      assert chunks[..n] == chunks;
    } else {
      ConcatNext(chunks, n);
      WholePrefix(Concat(chunks[..n]), chunks[n]);
      PrefixLines(chunks, n + 1);
    }
  }
}
