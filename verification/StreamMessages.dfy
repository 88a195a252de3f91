/** The messages of the chat stream: which lines carry one, and what each of them reports to the caller. */
module StreamMessages {
  import opened Wrappers
  import opened Text

  // ----- messages and their lines -----

  /** A parsed message, as far as the client looks at it. `Null` is the JSON value without properties. */
  datatype Message = Null | Delta(text: string) | Done(raw: string) | Failure(code: Option<string>) | Other

  datatype StreamEvent = OnDelta(text: string) | OnDone(raw: string) | OnError(code: string)

  /** The whitespace of ECMAScript's `trim`. */
  predicate IsJsWhitespace(c: char) {
    || '\U{9}' <= c <= '\U{D}'
    || '\U{2000}' <= c <= '\U{200A}'
    || c in "\U{20}\U{A0}\U{1680}\U{2028}\U{2029}\U{202F}\U{205F}\U{3000}\U{FEFF}"
  }

  /** The payload of a line; blank lines, comments and other fields have none. */
  function Payload(line: string): Option<string> {
    var trimmed := TrimWhile(line, IsJsWhitespace);
    if trimmed == "" || trimmed[0] == ':' || !StartsWith(trimmed, "data:") then None
    else
      var data := TrimWhile(trimmed[5..], IsJsWhitespace);
      if data == "" then None else Some(data)
  }

  // ----- data lines, said without trimming -----

  predicate HasCleanEdges(s: string) {
    s != [] && !IsJsWhitespace(s[0]) && !IsJsWhitespace(s[|s| - 1])
  }

  predicate IsDataLineOf(line: string, lead: string, gap: string, payload: string, tail: string) {
    && AllChars(lead, IsJsWhitespace) && AllChars(gap, IsJsWhitespace) && AllChars(tail, IsJsWhitespace)
    && HasCleanEdges(payload) && line == lead + "data:" + gap + payload + tail
  }

  /** Whitespace aside, the line is `data:` and a payload that is not blank. */
  ghost predicate IsDataLine(line: string, payload: string) {
    exists lead, gap, tail :: IsDataLineOf(line, lead, gap, payload, tail)
  }

  lemma {:induction false} TrimStartStops(lead: string, rest: string, p: char -> bool)
    requires AllChars(lead, p) && (rest != [] ==> !p(rest[0]))
    ensures TrimStartWhile(lead + rest, p) == rest
    decreases |lead|
  {
    if lead == [] {
      assert lead + rest == rest;
    } else {
      assert (lead + rest)[1..] == lead[1..] + rest;
      TrimStartStops(lead[1..], rest, p);
    }
  }

  lemma {:induction false} TrimEndStops(rest: string, tail: string, p: char -> bool)
    requires AllChars(tail, p) && (rest != [] ==> !p(rest[|rest| - 1]))
    ensures TrimEndWhile(rest + tail, p) == rest
    decreases |tail|
  {
    if tail == [] {
      assert rest + tail == rest;
    } else {
      assert (rest + tail)[..|rest + tail| - 1] == rest + tail[..|tail| - 1];
      TrimEndStops(rest, tail[..|tail| - 1], p);
    }
  }

  /** Trimming leaves what stands between the whitespace. */
  lemma TrimLeaves(lead: string, middle: string, tail: string)
    requires AllChars(lead, IsJsWhitespace) && AllChars(tail, IsJsWhitespace) && HasCleanEdges(middle)
    ensures TrimWhile(lead + middle + tail, IsJsWhitespace) == middle
  {
    assert lead + middle + tail == lead + (middle + tail);
    TrimStartStops(lead, middle + tail, IsJsWhitespace);
    TrimEndStops(middle, tail, IsJsWhitespace);
  }

  lemma StartSplits(s: string) returns (lead: string)
    ensures AllChars(lead, IsJsWhitespace) && s == lead + TrimStartWhile(s, IsJsWhitespace)
  {
    lead := s[..|s| - |TrimStartWhile(s, IsJsWhitespace)|];
  }

  lemma EndSplits(s: string) returns (tail: string)
    ensures AllChars(tail, IsJsWhitespace) && s == TrimEndWhile(s, IsJsWhitespace) + tail
  {
    tail := s[|TrimEndWhile(s, IsJsWhitespace)|..];
  }

  /** Trimming takes whitespace from both sides and leaves clean edges. */
  lemma TrimSplitsJs(s: string) returns (lead: string, tail: string)
    ensures AllChars(lead, IsJsWhitespace) && AllChars(tail, IsJsWhitespace)
    ensures s == lead + TrimWhile(s, IsJsWhitespace) + tail
    ensures TrimWhile(s, IsJsWhitespace) != [] ==> HasCleanEdges(TrimWhile(s, IsJsWhitespace))
  {
    hide TrimStartWhile, TrimEndWhile, IsJsWhitespace, AllChars;
    lead := StartSplits(s);
    var left := TrimStartWhile(s, IsJsWhitespace);
    tail := EndSplits(left);
    Sandwich(s, lead, left, TrimEndWhile(left, IsJsWhitespace), tail);
  }

  lemma Sandwich(s: string, lead: string, left: string, inner: string, tail: string)
    requires s == lead + left && left == inner + tail
    ensures s == lead + inner + tail && (inner != [] ==> inner[0] == left[0])
  {
  }

  /** A line has a payload iff it is a data line with it. */
  lemma PayloadIsExact(line: string, payload: string)
    ensures Payload(line) == Some(payload) <==> IsDataLine(line, payload)
  {
    hide TrimWhile, IsJsWhitespace;
    var trimmed := TrimWhile(line, IsJsWhitespace);
    if Payload(line) == Some(payload) {
      var lead, tail := TrimSplitsJs(line);
      var gap, none := TrimSplitsJs(trimmed[5..]);
      LastOfTail("data:" + gap + payload, none);
      assert trimmed == "data:" + trimmed[5..] == "data:" + gap + payload + none;
      assert none == [];
      assert line == lead + "data:" + gap + payload + tail;
      assert IsDataLineOf(line, lead, gap, payload, tail);
    }
    if IsDataLine(line, payload) {
      var lead, gap, tail :| IsDataLineOf(line, lead, gap, payload, tail);
      var middle := "data:" + gap + payload;
      DataHasCleanEdges(gap, payload);
      assert line == lead + middle + tail;
      TrimLeaves(lead, middle, tail);
      assert middle[5..] == gap + payload + [];
      TrimLeaves(gap, payload, []);
    }
  }

  lemma DataHasCleanEdges(gap: string, payload: string)
    requires HasCleanEdges(payload)
    ensures HasCleanEdges("data:" + gap + payload)
  {
  }

  lemma LastOfTail(front: string, tail: string)
    ensures tail != [] ==> (front + tail)[|front + tail| - 1] == tail[|tail| - 1]
  {
  }

  // ----- what a line delivers -----

  /** The callback a line triggers, if any; `parse` stands for JSON parsing. */
  function ConsumeLine(parse: string -> Option<Message>, line: string): Option<StreamEvent> {
    match Payload(line)
    case None => None
    case Some(data) =>
      match parse(data)
      case None => Some(OnError("server_error"))
      case Some(Delta(text)) => Some(OnDelta(text))
      case Some(Done(raw)) => Some(OnDone(raw))
      case Some(Failure(Some(code))) => Some(OnError(code))
      case Some(Failure(None)) => Some(OnError("server_error"))
      case Some(_) => None
  }

  /** Looking at the type of a null message raises an error outside the parser's `try`. */
  predicate Crashes(parse: string -> Option<Message>, line: string) {
    Payload(line).Some? && parse(Payload(line).value) == Some(Null)
  }

  function CrashFrom(parse: string -> Option<Message>, lines: seq<string>, from: nat): (c: nat)
    requires from <= |lines|
    ensures from <= c <= |lines|
    decreases |lines| - from
  {
    if from == |lines| || Crashes(parse, lines[from]) then from else CrashFrom(parse, lines, from + 1)
  }

  function FirstCrash(parse: string -> Option<Message>, lines: seq<string>): (c: nat)
    ensures c <= |lines|
  {
    CrashFrom(parse, lines, 0)
  }

  /** The first line that crashes the reader, or the number of lines. */
  lemma {:induction false} CrashFromMeans(parse: string -> Option<Message>, lines: seq<string>, from: nat)
    requires from <= |lines|
    ensures var c := CrashFrom(parse, lines, from);
      (c < |lines| ==> Crashes(parse, lines[c])) && forall i :: from <= i < c ==> !Crashes(parse, lines[i])
    decreases |lines| - from
  {
    hide Crashes;
    if from < |lines| && !Crashes(parse, lines[from]) { CrashFromMeans(parse, lines, from + 1); }
  }

  /** A null line ends the stream: nothing behind it is ever consumed. */
  lemma NullEndsTheStream(parse: string -> Option<Message>, rest: seq<string>)
    requires parse("null") == Some(Null)
    ensures FirstCrash(parse, ["data: null"] + rest) == 0
  {
    EdgesOfNullLine();
    assert IsDataLineOf("data: null", "", " ", "null", "") by {
      assert "" + "data:" + " " + "null" + "" == "data: null";
    }
    PayloadIsExact("data: null", "null");
    assert Crashes(parse, (["data: null"] + rest)[0]);
  }

  lemma EdgesOfNullLine()
    ensures IsJsWhitespace(' ') && !IsJsWhitespace('d') && !IsJsWhitespace('n') && !IsJsWhitespace('l')
  {
  }

  function Delivered(parse: string -> Option<Message>, line: string): seq<StreamEvent> {
    match ConsumeLine(parse, line)
    case None => []
    case Some(event) => [event]
  }

  function EventsOf(parse: string -> Option<Message>, lines: seq<string>): seq<StreamEvent> {
    if lines == [] then []
    else EventsOf(parse, lines[..|lines| - 1]) + Delivered(parse, lines[|lines| - 1])
  }

  lemma EventsOfNext(parse: string -> Option<Message>, lines: seq<string>, line: string)
    ensures EventsOf(parse, lines + [line]) == EventsOf(parse, lines) + Delivered(parse, line)
    ensures EventsOf(parse, []) == []
  {
    assert (lines + [line])[..|lines|] == lines;
  }

  // ----- the events of a stream, said without a reader -----

  /** What a caller is told about a payload: its text, its end, or an error with its code. */
  predicate Reports(message: Option<Message>, event: StreamEvent) {
    match event
    case OnDelta(text) => message == Some(Delta(text))
    case OnDone(raw) => message == Some(Done(raw))
    case OnError(code) =>
      || message == Some(Failure(Some(code)))
      || (code == "server_error" && (message == None || message == Some(Failure(None))))
  }

  /** The line is a data line whose payload reports the event. */
  ghost predicate Triggers(parse: string -> Option<Message>, line: string, event: StreamEvent) {
    exists payload :: IsDataLine(line, payload) && Reports(parse(payload), event)
  }

  ghost predicate IsNullLine(parse: string -> Option<Message>, line: string) {
    exists payload :: IsDataLine(line, payload) && parse(payload) == Some(Null)
  }

  /** The events come from the lines at these positions, in order, and no other line triggers one. */
  ghost predicate ComeFrom(
    parse: string -> Option<Message>, lines: seq<string>, events: seq<StreamEvent>, at: seq<nat>)
  {
    && |at| == |events|
    && (forall i, j :: 0 <= i < j < |at| ==> at[i] < at[j])
    && (forall k :: 0 <= k < |at| ==> at[k] < |lines| && Triggers(parse, lines[at[k]], events[k]))
    && (forall i :: 0 <= i < |lines| && i !in at ==> forall event :: !Triggers(parse, lines[i], event))
  }

  ghost predicate AreEventsOf(parse: string -> Option<Message>, lines: seq<string>, events: seq<StreamEvent>) {
    exists at :: ComeFrom(parse, lines, events, at)
  }

  /** The lines in front of the first null line. */
  ghost predicate IsFirstNull(parse: string -> Option<Message>, lines: seq<string>, n: nat) {
    && n <= |lines| && (n < |lines| ==> IsNullLine(parse, lines[n]))
    && forall i :: 0 <= i < n ==> !IsNullLine(parse, lines[i])
  }

  /** The events of the lines in front of the first null line, all of them. */
  ghost predicate AreEventsBeforeNull(parse: string -> Option<Message>, lines: seq<string>, events: seq<StreamEvent>) {
    exists n: nat :: IsFirstNull(parse, lines, n) && AreEventsOf(parse, lines[..n], events)
  }

  lemma ConsumeLineMeans(parse: string -> Option<Message>, line: string)
    ensures forall event :: Triggers(parse, line, event) <==> ConsumeLine(parse, line) == Some(event)
    ensures IsNullLine(parse, line) <==> Crashes(parse, line)
  {
    hide Payload, IsDataLine;
    forall payload ensures Payload(line) == Some(payload) <==> IsDataLine(line, payload) {
      PayloadIsExact(line, payload);
    }
  }

  lemma {:induction false} EventsComeFrom(parse: string -> Option<Message>, lines: seq<string>) returns (at: seq<nat>)
    ensures ComeFrom(parse, lines, EventsOf(parse, lines), at)
    decreases |lines|
  {
    hide ComeFrom, Delivered;
    if lines == [] {
      at := [];
      NoEvents(parse);
    } else {
      var init, line := lines[..|lines| - 1], lines[|lines| - 1];
      at := EventsComeFrom(parse, init);
      assert lines == init + [line];
      DeliveredMeans(parse, line);
      hide EventsOf, Triggers;
      EventsOfNext(parse, init, line);
      if Delivered(parse, line) == [] {
        SilentLine(parse, init, EventsOf(parse, init), at, line);
        assert EventsOf(parse, lines) == EventsOf(parse, init);
      } else {
        assert Delivered(parse, line) == [Delivered(parse, line)[0]];
        TellingLine(parse, init, EventsOf(parse, init), at, line, Delivered(parse, line)[0]);
        at := at + [|init|];
      }
    }
  }

  lemma NoEvents(parse: string -> Option<Message>)
    ensures ComeFrom(parse, [], [], []) && EventsOf(parse, []) == []
  {
  }

  lemma DeliveredMeans(parse: string -> Option<Message>, line: string)
    ensures var events := Delivered(parse, line);
      if events == [] then forall event :: !Triggers(parse, line, event)
      else |events| == 1 && Triggers(parse, line, events[0])
  {
    hide Triggers, ConsumeLine;
    ConsumeLineMeans(parse, line);
  }

  lemma SilentLine(
    parse: string -> Option<Message>, lines: seq<string>, events: seq<StreamEvent>, at: seq<nat>, line: string)
    requires ComeFrom(parse, lines, events, at) && forall event :: !Triggers(parse, line, event)
    ensures ComeFrom(parse, lines + [line], events, at)
  {
    hide Triggers;
  }

  lemma TellingLine(
    parse: string -> Option<Message>, lines: seq<string>, events: seq<StreamEvent>, at: seq<nat>, line: string,
    event: StreamEvent)
    requires ComeFrom(parse, lines, events, at) && Triggers(parse, line, event)
    ensures ComeFrom(parse, lines + [line], events + [event], at + [|lines|])
  {
    hide Triggers;
    var longer, more := lines + [line], at + [|lines|];
    forall i | 0 <= i < |longer| && i !in more ensures forall event :: !Triggers(parse, longer[i], event) {
      assert more[|at|] == |lines|;
      assert i !in at && longer[i] == lines[i];
    }
  }

  /** The events delivered are those of the data lines, in order, and the crash point is the first null line. */
  lemma EventsMean(parse: string -> Option<Message>, lines: seq<string>)
    ensures AreEventsOf(parse, lines, EventsOf(parse, lines))
    ensures IsFirstNull(parse, lines, FirstCrash(parse, lines))
  {
    hide ComeFrom, EventsOf, CrashFrom;
    var at := EventsComeFrom(parse, lines);
    assert ComeFrom(parse, lines, EventsOf(parse, lines), at);
    CrashFromMeans(parse, lines, 0);
    forall line ensures IsNullLine(parse, line) <==> Crashes(parse, line) { ConsumeLineMeans(parse, line); }
  }

  /** Fewer lines deliver a prefix of the events. */
  lemma {:induction false} EventsOfPrefix(parse: string -> Option<Message>, some: seq<string>, all: seq<string>)
    requires some <= all
    ensures EventsOf(parse, some) <= EventsOf(parse, all)
    decreases |all|
  {
    hide ConsumeLine, Delivered;
    if some != all {
      EventsOfPrefix(parse, some, all[..|all| - 1]);
    }
  }
}
