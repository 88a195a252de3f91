/** The two citation forms that may cross the public document boundary. */
module PublicCitation {
  import opened Wrappers
  import opened Text

  datatype Kind = Law | JudicialCase

  datatype Parts = Parts(kind: Kind, title: string, locator: string, year: string)

  /** The text before and after the first occurrence of a separator. */
  function SplitOnce(s: string, sep: string): (r: Option<(string, string)>)
    ensures r.Some? ==> s == r.value.0 + sep + r.value.1
  {
    match Find(s, sep, 0)
    case None => None
    case Some(i) =>
      FindMeans(s, sep, 0);
      assert s == s[..i] + s[i..i + |sep|] + s[i + |sep|..];
      Some((s[..i], s[i + |sep|..]))
  }

  function StripPrefix(s: string, prefix: string): (r: Option<string>)
    ensures r.Some? <==> prefix <= s
    ensures r.Some? ==> s == prefix + r.value
  {
    if prefix <= s then Some(s[|prefix|..]) else None
  }

  function StripSuffix(s: string, suffix: string): (r: Option<string>)
    ensures r.Some? ==> s == r.value + suffix
  {
    if EndsWith(s, suffix) then
      assert s == s[..|s| - |suffix|] + s[|s| - |suffix|..];
      Some(s[..|s| - |suffix|])
    else None
  }

  predicate ValidPublicYear(value: string) {
    |value| == 4 && AllChars(value, IsAsciiDigit)
  }

  predicate IsBlank(s: string) {
    Trim(s) == []
  }

  const LAW_END := "年起施行）"
  const CASE_OPEN := "（案号："
  const CASE_END := "年裁判）"

  // ----- the written forms -----

  function LawLocator(article: string, paragraph: string): string {
    "第" + article + "条第" + paragraph + "款"
  }

  function WriteLaw(title: string, locator: string, year: string): string {
    "《" + title + "》" + locator + "（" + year + LAW_END
  }

  function WriteCase(title: string, number: string, year: string): string {
    title + CASE_OPEN + number + "；" + year + CASE_END
  }

  function Write(p: Parts): string {
    match p.kind
    case Law => WriteLaw(p.title, p.locator, p.year)
    case JudicialCase => WriteCase(p.title, p.locator, p.year)
  }

  /** The rightmost opening bracket of a written law citation is the one in front of the year. */
  lemma RFindsYearBracket(front: string, year: string)
    requires ValidPublicYear(year)
    ensures RFind(front + "（" + year + LAW_END, '（') == Some(|front|)
  {
    var s := front + "（" + year + LAW_END;
    assert s[|front|] == '（';
    forall j | |front| < j < |s| ensures s[j] != '（' {
      if j < |front| + 5 { assert s[j] == year[j - |front| - 1]; } else { assert s[j] == LAW_END[j - |front| - 5]; }
    }
    var found := RFind(s, '（');
    assert '（' in s;
  }

  /** The slice taken as locator runs from the title's bracket to the year's. */
  lemma YearBracketIsLast(value: string, title: string, article: string, paragraph: string, year: string)
    requires value == "《" + (title + "》" + ("第" + (article + "条第" + (paragraph + "款（" + (year + LAW_END)))))
      && ValidPublicYear(year)
    ensures value == WriteLaw(title, LawLocator(article, paragraph), year)
    ensures RFind(value, '（') == Some(|title| + 2 + |LawLocator(article, paragraph)|)
    ensures value[|title| + 2..|title| + 2 + |LawLocator(article, paragraph)|] == LawLocator(article, paragraph)
  {
    hide RFind, ValidPublicYear;
    var front := "《" + title + "》" + LawLocator(article, paragraph);
    assert value == front + "（" + year + LAW_END;
    RFindsYearBracket(front, year);
  }

  function ParseLaw(value: string, inner: string): Option<Parts>
    requires value == "《" + inner
  {
    match SplitOnce(inner, "》")
    case None => None
    case Some((title, afterTitle)) =>
      match StripPrefix(afterTitle, "第")
      case None => None
      case Some(fromArticle) =>
        match SplitOnce(fromArticle, "条第")
        case None => None
        case Some((article, fromParagraph)) =>
          match SplitOnce(fromParagraph, "款（")
          case None => None
          case Some((paragraph, tail)) =>
            match StripSuffix(tail, LAW_END)
            case None => None
            case Some(year) =>
              if IsBlank(title) || IsBlank(article) || IsBlank(paragraph) || !ValidPublicYear(year) then None
              else
                match RFind(value, '（')
                case None => None
                case Some(end) =>
                  YearBracketIsLast(value, title, article, paragraph, year);
                  Some(Parts(Law, title, value[|title| + 2..end], year))
  }

  function ParseCase(value: string): Option<Parts> {
    match SplitOnce(value, CASE_OPEN)
    case None => None
    case Some((title, rest)) =>
      match SplitOnce(rest, "；")
      case None => None
      case Some((caseNumber, tail)) =>
        match StripSuffix(tail, CASE_END)
        case None => None
        case Some(year) =>
          if IsBlank(title) || IsBlank(caseNumber) || !ValidPublicYear(year) then None
          else Some(Parts(JudicialCase, title, caseNumber, year))
  }

  function ParsePublicCitation(value: string): Option<Parts> {
    var trimmed := Trim(value);
    match StripPrefix(trimmed, "《")
    case Some(inner) => ParseLaw(trimmed, inner)
    case None => ParseCase(trimmed)
  }

  // ----- exactness -----

  lemma NoOverlap(before: string, sep: string, after: string, i: nat)
    requires i < |before| < i + |sep| && forall d :: 0 < d < |sep| ==> sep[d] != sep[0]
    ensures !OccursAt(before + sep + after, sep, i)
  {
    var s := before + sep + after;
    if i + |sep| <= |s| {
      assert s[i..i + |sep|][|before| - i] == s[|before|] == sep[0];
    }
  }

  /** A separator whose first character occurs in it only once splits where it was written, and nowhere else. */
  lemma SplitsWhereWritten(before: string, sep: string, after: string)
    requires sep != [] && forall d :: 0 < d < |sep| ==> sep[d] != sep[0]
    ensures SplitOnce(before + sep + after, sep) == Some((before, after)) <==> !Contains(before, sep)
  {
    var s := before + sep + after;
    FindMeans(s, sep, 0);
    ContainsMeans(before, sep);
    hide Find, Contains;
    assert s[|before|..|before| + |sep|] == sep;
    assert OccursAt(s, sep, |before|);
    forall i: nat | i < |before| ensures OccursAt(s, sep, i) <==> OccursAt(before, sep, i) {
      if i + |sep| <= |before| {
        assert s[i..i + |sep|] == before[i..i + |sep|];
      } else {
        NoOverlap(before, sep, after, i);
      }
    }
    assert s[..|before|] == before && s[|before| + |sep|..] == after;
    if i: nat :| OccursAt(before, sep, i) { assert i < |before|; }
  }

  /** Splitting at the first separator, as a property of the two parts. */
  lemma SplitMeans(s: string, sep: string, before: string, after: string)
    requires sep != [] && forall d :: 0 < d < |sep| ==> sep[d] != sep[0]
    ensures SplitOnce(s, sep) == Some((before, after)) <==> s == before + sep + after && !Contains(before, sep)
  {
    SplitsWhereWritten(before, sep, after);
    hide Contains, Find;
  }

  lemma StripSuffixMeans(s: string, suffix: string, before: string)
    ensures StripSuffix(s, suffix) == Some(before) <==> s == before + suffix
  {
    if s == before + suffix {
      assert s[|s| - |suffix|..] == suffix && s[..|s| - |suffix|] == before;
    }
  }

  /** The parts of a law citation, with nothing in them that would move a separator. */
  ghost predicate IsLawCitation(value: string, title: string, article: string, paragraph: string, year: string) {
    && value == WriteLaw(title, LawLocator(article, paragraph), year)
    && !IsBlank(title) && !IsBlank(article) && !IsBlank(paragraph) && ValidPublicYear(year)
    && !Contains(title, "》") && !Contains(article, "条第") && !Contains(paragraph, "款（")
  }

  ghost predicate IsCaseCitation(value: string, title: string, number: string, year: string) {
    && value == WriteCase(title, number, year)
    && !IsBlank(title) && !IsBlank(number) && ValidPublicYear(year)
    && !("《" <= value) && !Contains(title, CASE_OPEN) && !Contains(number, "；")
  }

  /** What is accepted in the law form is rebuilt, character by character, from what is returned. */
  lemma LawIsRebuilt(value: string, p: Parts)
    requires "《" <= value && ParseLaw(value, value[1..]) == Some(p)
    ensures p.kind == Law
    ensures exists article, paragraph ::
      p.locator == LawLocator(article, paragraph) && IsLawCitation(value, p.title, article, paragraph, p.year)
  {
    hide Find, Contains, Trim, RFind, SplitOnce, StripSuffix, WriteLaw, IsBlank;
    var inner := value[1..];
    var (title, afterTitle) := SplitOnce(inner, "》").value;
    var fromArticle := StripPrefix(afterTitle, "第").value;
    var (article, fromParagraph) := SplitOnce(fromArticle, "条第").value;
    var (paragraph, tail) := SplitOnce(fromParagraph, "款（").value;
    var year := StripSuffix(tail, LAW_END).value;
    SplitMeans(inner, "》", title, afterTitle);
    SplitMeans(fromArticle, "条第", article, fromParagraph);
    SplitMeans(fromParagraph, "款（", paragraph, tail);
    YearBracketIsLast(value, title, article, paragraph, year);
    assert p.locator == LawLocator(article, paragraph) && IsLawCitation(value, p.title, article, paragraph, p.year);
  }

  /** Every law citation is accepted, with the parts it was written from. */
  lemma LawIsAccepted(value: string, title: string, article: string, paragraph: string, year: string)
    requires IsLawCitation(value, title, article, paragraph, year)
    ensures "《" <= value && ParseLaw(value, value[1..]) == Some(Parts(Law, title, LawLocator(article, paragraph), year))
  {
    hide Find, Contains, Trim, RFind, SplitOnce, StripSuffix;
    var tail := year + LAW_END;
    var fromParagraph := paragraph + "款（" + tail;
    var fromArticle := article + "条第" + fromParagraph;
    var afterTitle := "第" + fromArticle;
    var inner := title + "》" + afterTitle;
    assert value == "《" + inner && value[1..] == inner && afterTitle[1..] == fromArticle;
    SplitMeans(inner, "》", title, afterTitle);
    SplitMeans(fromArticle, "条第", article, fromParagraph);
    SplitMeans(fromParagraph, "款（", paragraph, tail);
    StripSuffixMeans(tail, LAW_END, year);
    YearBracketIsLast(value, title, article, paragraph, year);
  }

  lemma CaseIsExact(value: string, p: Parts)
    requires !("《" <= value)
    ensures ParseCase(value) == Some(p) <==> p.kind == JudicialCase && IsCaseCitation(value, p.title, p.locator, p.year)
  {
    hide Find, Contains, Trim, StripSuffix, SplitOnce;
    if ParseCase(value) == Some(p) {
      var (title, rest) := SplitOnce(value, CASE_OPEN).value;
      var (number, tail) := SplitOnce(rest, "；").value;
      SplitMeans(value, CASE_OPEN, title, rest);
      SplitMeans(rest, "；", number, tail);
      StripSuffixMeans(tail, CASE_END, p.year);
      assert value == WriteCase(title, number, p.year);
    }
    if p.kind == JudicialCase && IsCaseCitation(value, p.title, p.locator, p.year) {
      var tail := p.year + CASE_END;
      var rest := p.locator + "；" + tail;
      assert value == p.title + CASE_OPEN + rest;
      SplitMeans(value, CASE_OPEN, p.title, rest);
      SplitMeans(rest, "；", p.locator, tail);
      StripSuffixMeans(tail, CASE_END, p.year);
    }
  }

  /**
   The parser is exact: a text is accepted iff its trimming is one of the two
   written forms, whose parts hold no earlier separator, and then the parts rebuild it.
   */
  lemma CitationIsExact(text: string, p: Parts)
    ensures ParsePublicCitation(text) == Some(p) <==>
      match p.kind
      case Law => exists article, paragraph ::
        p.locator == LawLocator(article, paragraph) && IsLawCitation(Trim(text), p.title, article, paragraph, p.year)
      case JudicialCase => IsCaseCitation(Trim(text), p.title, p.locator, p.year)
    ensures ParsePublicCitation(text) == Some(p) ==> Write(p) == Trim(text)
  {
    hide Trim, ParseLaw, ParseCase, Contains, IsBlank;
    var value := Trim(text);
    if "《" <= value {
      assert "《" + value[1..] == value;
      if ParsePublicCitation(text).Some? { LawIsRebuilt(value, ParsePublicCitation(text).value); }
    } else {
      CaseIsExact(value, p);
      if ParseCase(value).Some? { CaseIsExact(value, ParseCase(value).value); }
    }
    forall article, paragraph |
      p.locator == LawLocator(article, paragraph) && IsLawCitation(value, p.title, article, paragraph, p.year)
      ensures p.kind == Law ==> ParsePublicCitation(text) == Some(p)
    {
      LawIsAccepted(value, p.title, article, paragraph, p.year);
    }
  }
}
