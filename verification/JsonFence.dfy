/** Unwrapping one raw JSON value or one outer `json` fence from a model response. */
module JsonFence {
  import opened Wrappers
  import opened Text

  const FENCE := "```"
  const OPEN := "```json"

  datatype FenceError = InvalidFence

  /** Left-to-right, non-overlapping occurrences. */
  function CountMatches(s: string, pat: string): nat
    requires pat != []
    decreases |s|
  {
    match Find(s, pat, 0)
    case None => 0
    case Some(i) => 1 + CountMatches(s[i + |pat|..], pat)
  }

  function SingleJsonBody(input: string): Result<string, FenceError> {
    var trimmed := Trim(input);
    if !(FENCE <= trimmed) then
      if Contains(trimmed, FENCE) then Err(InvalidFence) else Ok(trimmed)
    else if OPEN + "\n" <= trimmed then Fenced(trimmed, "\n")
    else if OPEN + "\r\n" <= trimmed then Fenced(trimmed, "\r\n")
    else Err(InvalidFence)
  }

  function Fenced(trimmed: string, lineEnding: string): Result<string, FenceError>
    requires OPEN + lineEnding <= trimmed
  {
    var afterOpen := trimmed[|OPEN + lineEnding|..];
    var close := lineEnding + FENCE;
    if !EndsWith(afterOpen, close) then Err(InvalidFence)
    else
      var body := afterOpen[..|afterOpen| - |close|];
      if Contains(body, FENCE) || CountMatches(trimmed, FENCE) != 2 then Err(InvalidFence) else Ok(body)
  }

  /** A body in an outer fence with one line ending on both sides. */
  function Wrap(body: string, lineEnding: string): string {
    OPEN + lineEnding + body + lineEnding + FENCE
  }

  predicate IsLineEnding(s: string) {
    s == "\n" || s == "\r\n"
  }

  /** No fence stands over a character other than a backtick. */
  lemma NoFenceOver(s: string, i: nat, k: nat)
    requires i <= k < i + 3 && k < |s| && s[k] != '`'
    ensures !OccursAt(s, FENCE, i)
  {
    if i + 3 <= |s| {
      assert s[i..i + 3][k - i] == s[k];
    }
  }

  /** Between text without backticks, a body without a fence leaves none in front of the closing one. */
  lemma NoEarlierFence(lead: string, body: string, end: string, i: nat)
    requires '`' !in lead && end != [] && '`' !in end && !Contains(body, FENCE)
    requires i < |lead| + |body| + |end|
    ensures !OccursAt(lead + body + end + FENCE, FENCE, i)
  {
    var rest := lead + body + end + FENCE;
    ContainsMeans(body, FENCE);
    hide Contains, OccursAt;
    var start := |lead|;
    if i < start {
      assert rest[i] == lead[i] && lead[i] in lead;
      NoFenceOver(rest, i, i);
    } else if i + 3 <= start + |body| {
      assert rest[start..start + |body|] == body;
      OccursInSlice(rest, FENCE, start, start + |body|, i - start);
    } else if i < start + |body| {
      assert rest[start + |body|] == end[0] && end[0] in end;
      NoFenceOver(rest, i, start + |body|);
    } else {
      assert rest[i] == end[i - start - |body|] && rest[i] in end;
      NoFenceOver(rest, i, i);
    }
  }

  /** After the opener, the only fence is the closing one. */
  lemma ClosingFenceIsNext(lead: string, body: string, end: string)
    requires '`' !in lead && end != [] && '`' !in end && !Contains(body, FENCE)
    ensures Find(lead + body + end + FENCE, FENCE, 0) == Some(|lead| + |body| + |end|)
  {
    var rest := lead + body + end + FENCE;
    FindMeans(rest, FENCE, 0);
    hide Find, Contains;
    var at := |lead| + |body| + |end|;
    assert rest[at..at + 3] == FENCE;
    assert OccursAt(rest, FENCE, at);
    forall i: nat | i < at ensures !OccursAt(rest, FENCE, i) {
      NoEarlierFence(lead, body, end, i);
    }
  }

  /** A wrapped body without a fence of its own has exactly two fences, so the count never decides. */
  lemma WrappedHasTwoFences(body: string, lineEnding: string)
    requires IsLineEnding(lineEnding) && !Contains(body, FENCE)
    ensures CountMatches(Wrap(body, lineEnding), FENCE) == 2
  {
    var text := Wrap(body, lineEnding);
    var rest := "json" + lineEnding + body + lineEnding + FENCE;
    assert text[0..3] == FENCE;
    assert Find(text, FENCE, 0) == Some(0);
    assert text[3..] == rest;
    ClosingFenceIsNext("json" + lineEnding, body, lineEnding);
    assert rest[|rest| - 3 + |FENCE|..] == [];
    assert CountMatches([], FENCE) == 0;
    assert CountMatches(rest, FENCE) == 1;
  }

  /** Cutting a prefix and a suffix off yields the middle iff the text is prefix, middle and suffix. */
  lemma CutsAsWritten(text: string, prefix: string, middle: string, suffix: string)
    requires prefix <= text
    ensures var rest := text[|prefix|..];
      (EndsWith(rest, suffix) && rest[..|rest| - |suffix|] == middle) <==> text == prefix + middle + suffix
  {
    var rest := text[|prefix|..];
    assert text == prefix + rest;
    if EndsWith(rest, suffix) { assert rest == rest[..|rest| - |suffix|] + suffix; }
    if text == prefix + middle + suffix {
      assert rest == middle + suffix;
      assert rest[|rest| - |suffix|..] == suffix && rest[..|rest| - |suffix|] == middle;
    }
  }

  lemma FencedIsExact(trimmed: string, lineEnding: string, body: string)
    requires IsLineEnding(lineEnding) && OPEN + lineEnding <= trimmed
    ensures Fenced(trimmed, lineEnding) == Ok(body) <==> trimmed == Wrap(body, lineEnding) && !Contains(body, FENCE)
  {
    hide Contains, CountMatches;
    var afterOpen, close := trimmed[|OPEN + lineEnding|..], lineEnding + FENCE;
    CutsAsWritten(trimmed, OPEN + lineEnding, body, close);
    assert Wrap(body, lineEnding) == (OPEN + lineEnding) + body + close;
    if !Contains(body, FENCE) { WrappedHasTwoFences(body, lineEnding); }
  }

  /**
   The unwrapping is exact: it yields a body iff the trimmed text is that body
   without any fence, or wraps it between matching LF or CRLF fences with no
   further fence inside.
   */
  lemma BodyIsExact(input: string, body: string)
    ensures SingleJsonBody(input) == Ok(body) <==>
      || (Trim(input) == body && !Contains(body, FENCE))
      || exists lineEnding ::
           IsLineEnding(lineEnding) && Trim(input) == Wrap(body, lineEnding) && !Contains(body, FENCE)
  {
    hide Trim, Contains, Fenced, Wrap;
    var trimmed := Trim(input);
    if FENCE <= trimmed { FenceIsContained(trimmed); }
    if OPEN + "\n" <= trimmed { FencedIsExact(trimmed, "\n", body); }
    if OPEN + "\r\n" <= trimmed { FencedIsExact(trimmed, "\r\n", body); }
    WrapOpens(body, "\n");
    WrapOpens(body, "\r\n");
    assert OPEN + "\n" <= trimmed ==> !(OPEN + "\r\n" <= trimmed) by {
      assert (OPEN + "\n")[7] == '\n' && (OPEN + "\r\n")[7] == '\r';
    }
    assert IsLineEnding("\n") && IsLineEnding("\r\n");
  }

  lemma FenceIsContained(trimmed: string)
    requires FENCE <= trimmed
    ensures Contains(trimmed, FENCE)
  {
    ContainsMeans(trimmed, FENCE);
    assert OccursAt(trimmed, FENCE, 0);
  }

  lemma WrapOpens(body: string, lineEnding: string)
    ensures OPEN + lineEnding <= Wrap(body, lineEnding) && FENCE <= Wrap(body, lineEnding)
  {
    assert Wrap(body, lineEnding)[..3] == FENCE;
  }

  /** An LF opener closed after CRLF is accepted, and the body keeps the carriage return. */
  lemma MixedEndingsKeepCarriageReturn(input: string, body: string)
    requires Trim(input) == OPEN + "\n" + body + "\r\n" + FENCE && !Contains(body, FENCE)
    ensures SingleJsonBody(input) == Ok(body + "\r")
  {
    var longer := body + "\r";
    assert Trim(input) == Wrap(longer, "\n");
    CarriageReturnAddsNoFence(body);
    assert IsLineEnding("\n");
    BodyIsExact(input, longer);
  }

  /** A returned body ends in a carriage return iff one precedes the ending of the opener at the closing fence. */
  lemma CarriageReturnIsKeptIff(input: string, body: string)
    requires SingleJsonBody(input) == Ok(body)
    ensures EndsWith(body, "\r") <==>
      exists ending :: IsLineEnding(ending) && OPEN + ending <= Trim(input)
        && EndsWith(Trim(input), "\r" + ending + FENCE)
  {
    var trimmed := Trim(input);
    BodyIsExact(input, body);
    hide SingleJsonBody, Trim, Contains;
    if trimmed == body && !Contains(body, FENCE) {
      PlainBodyEnds(input, body);
    } else {
      var lineEnding :| IsLineEnding(lineEnding) && trimmed == Wrap(body, lineEnding) && !Contains(body, FENCE);
      WrappedBodyEnds(body, lineEnding);
      forall ending | IsLineEnding(ending) && OPEN + ending <= trimmed ensures ending == lineEnding {
        assert trimmed[|OPEN|] == ending[0] == lineEnding[0];
      }
    }
  }

  /** Without a fence the body is trimmed, so it ends in no whitespace and has no opener. */
  lemma PlainBodyEnds(input: string, body: string)
    requires Trim(input) == body && !Contains(body, FENCE)
    ensures !EndsWith(body, "\r") && forall ending: string :: !(OPEN + ending <= body)
  {
    var lead := TrimSplits(input);
    hide Trim, Contains;
    ContainsMeans(body, FENCE);
    forall ending: string ensures !(OPEN + ending <= body) { OpenerIsFence(body, ending); }
    if EndsWith(body, "\r") { assert body[|body| - 1..][0] == body[|body| - 1]; }
    assert IsWhitespace('\r');
  }

  lemma OpenerIsFence(text: string, ending: string)
    ensures OPEN + ending <= text ==> OccursAt(text, FENCE, 0)
  {
    if OPEN + ending <= text { assert text[0..3] == (OPEN + ending)[0..3] == FENCE; }
  }

  lemma WrappedBodyEnds(body: string, lineEnding: string)
    requires IsLineEnding(lineEnding)
    ensures OPEN + lineEnding <= Wrap(body, lineEnding)
    ensures EndsWith(body, "\r") <==> EndsWith(Wrap(body, lineEnding), "\r" + lineEnding + FENCE)
  {
    var text, close := Wrap(body, lineEnding), lineEnding + FENCE;
    var front := OPEN + lineEnding + body;
    assert text == front + close;
    var tail := "\r" + lineEnding + FENCE;
    assert tail == "\r" + close && text[|text| - |tail|..] == [front[|front| - 1]] + close;
    assert body != [] ==> front[|front| - 1] == body[|body| - 1] && body[|body| - 1..] == [body[|body| - 1]];
    assert body == [] ==> front[|front| - 1] == '\n';
    assert EndsWith(text, tail) <==> front[|front| - 1] == '\r' by {
      assert ([front[|front| - 1]] + close)[0] == front[|front| - 1] && tail[0] == '\r';
    }
  }

  lemma CarriageReturnAddsNoFence(body: string)
    requires !Contains(body, FENCE)
    ensures !Contains(body + "\r", FENCE)
  {
    var longer := body + "\r";
    ContainsMeans(longer, FENCE);
    ContainsMeans(body, FENCE);
    hide Contains;
    forall i: nat | i + 3 <= |longer| ensures !OccursAt(longer, FENCE, i) {
      if i + 3 == |longer| {
        NoFenceOver(longer, i, i + 2);
      } else {
        assert longer[i..i + 3] == body[i..i + 3];
        assert !OccursAt(body, FENCE, i);
      }
    }
  }
}
