/** What a merged result list is, said without its comparator: who is kept, and who stands in front of whom. */
module RankingOrder {
  import opened Wrappers
  import opened Text
  import opened Sources
  import opened Ranking
  import LineStream

  // ----- what sources are compared by -----

  ghost predicate OccursIn(text: string, term: string) {
    exists i: nat :: OccursAt(text, term, i)
  }

  ghost predicate InTitle(s: LegalSource, term: string) {
    s.articleTitle.Some? && OccursIn(s.articleTitle.value, term)
  }

  ghost predicate Mentions(s: LegalSource, term: string) {
    OccursIn(s.documentTitle, term) || OccursIn(s.articleNumber, term) || InTitle(s, term) || OccursIn(s.content, term)
  }

  /** Some line of the content that is no embedded heading has the term. */
  ghost predicate InProse(s: LegalSource, term: string) {
    && OccursIn(s.content, term)
    && exists k :: (&& 0 <= k < |LineStream.WholeLines(s.content)|
                    && OccursIn(LineStream.WholeLines(s.content)[k], term)
                    && !LooksLikeEmbeddedHeading(LineStream.WholeLines(s.content)[k]))
  }

  ghost function Hits(terms: seq<string>, s: LegalSource): nat {
    |set k | 0 <= k < |terms| && Mentions(s, terms[k])|
  }

  ghost function ProseHits(terms: seq<string>, s: LegalSource): nat {
    |set k | 0 <= k < |terms| && InProse(s, terms[k])|
  }

  ghost function TitleHits(terms: seq<string>, s: LegalSource): nat {
    |set k | 0 <= k < |terms| && InTitle(s, terms[k])|
  }

  /** The levels of authority, the highest first; a document of any other level ranks below them. */
  const LEVELS: seq<seq<string>> := [
    ["constitution"], ["national_law"], ["administrative_regulation", "supervision_regulation"],
    ["judicial_interpretation"], ["department_rule"], ["autonomous_regulation", "special_zone_regulation"],
    ["local_regulation"], ["local_government_rule"]]

  /** How many levels of authority stand above this one. */
  function LevelsAbove(level: string, levels: seq<seq<string>>): (n: nat)
    ensures n <= |levels|
    ensures n < |levels| ==> level in levels[n]
    ensures forall k :: 0 <= k < n ==> level !in levels[k]
  {
    if levels == [] || level in levels[0] then 0 else 1 + LevelsAbove(level, levels[1..])
  }

  function Level(r: Ranking, s: LegalSource): string {
    if s.documentId in r.levels then r.levels[s.documentId] else ""
  }

  /** The dictionary order: `a` ends first, or has the smaller character at the first difference. */
  ghost predicate IsSmaller(a: string, b: string) {
    exists k: nat :: k <= |a| && k < |b| && a[..k] == b[..k] && (k == |a| || a[k] < b[k])
  }

  /** More hits first, then more in prose, more in the title, higher authority, in force, and the texts upwards. */
  ghost predicate Outranks(r: Ranking, s: LegalSource, t: LegalSource) {
    if Hits(r.terms, s) != Hits(r.terms, t) then Hits(r.terms, s) > Hits(r.terms, t)
    else if ProseHits(r.terms, s) != ProseHits(r.terms, t) then ProseHits(r.terms, s) > ProseHits(r.terms, t)
    else if TitleHits(r.terms, s) != TitleHits(r.terms, t) then TitleHits(r.terms, s) > TitleHits(r.terms, t)
    else if LevelsAbove(Level(r, s), LEVELS) != LevelsAbove(Level(r, t), LEVELS) then
      LevelsAbove(Level(r, s), LEVELS) < LevelsAbove(Level(r, t), LEVELS)
    else if (s.versionStatus == "in_force") != (t.versionStatus == "in_force") then s.versionStatus == "in_force"
    else if s.documentTitle != t.documentTitle then IsSmaller(s.documentTitle, t.documentTitle)
    else if s.articleNumber != t.articleNumber then IsSmaller(s.articleNumber, t.articleNumber)
    else IsSmaller(s.sourceId, t.sourceId)
  }

  /** The first source of its id in the two lists together. */
  ghost predicate IsCandidate(sources: seq<LegalSource>, s: LegalSource) {
    exists i :: 0 <= i < |sources| && sources[i] == s && forall j :: 0 <= j < i ==> sources[j].sourceId != s.sourceId
  }

  // ----- counting -----

  lemma {:induction false} CountSplits(terms: seq<string>, p: string -> bool)
    requires terms != []
    ensures Count(terms, p) ==
      Count(terms[..|terms| - 1], p) + if p(terms[|terms| - 1]) then 1 else 0
    decreases |terms|
  {
    if |terms| > 1 {
      CountSplits(terms[1..], p);
      assert terms[1..][..|terms| - 2] == terms[..|terms| - 1][1..];
    }
  }

  /** Counting the terms is counting their positions. */
  lemma {:induction false} CountIsCardinality(terms: seq<string>, p: string -> bool)
    ensures Count(terms, p) == |set k | 0 <= k < |terms| && p(terms[k])|
    decreases |terms|
  {
    var all := set k | 0 <= k < |terms| && p(terms[k]);
    if terms == [] {
      assert all == {};
    } else {
      var n := |terms| - 1;
      var init := terms[..n];
      CountSplits(terms, p);
      CountIsCardinality(init, p);
      var fewer := set k | 0 <= k < |init| && p(init[k]);
      assert all == if p(terms[n]) then fewer + {n} else fewer;
    }
  }

  /** Lines of content are cut as the lines of a stream are. */
  lemma {:induction false} LinesAgree(content: string)
    ensures Lines(content) == LineStream.WholeLines(content)
    decreases |content|
  {
    hide LineStream.WholeLines, LineStream.NextBreak, LineStream.SplitLines, EndsWith;
    FindChar(content, '\n');
    match Find(content, "\n", 0) {
      case None =>
        OneLineOnly(content);
      case Some(i) =>
        var line, rest := content[..i], content[i + 1..];
        LinesAgree(rest);
        FirstOfContent(content, line, rest);
        assert i > 0 ==> content[..i - 1] == line[..|line| - 1];
        assert EndsWith(line, "\r") ==> i > 0 by { CarriageReturnIsThere(line); }
    }
  }

  lemma CarriageReturnIsThere(line: string)
    ensures EndsWith(line, "\r") ==> line != []
  {
  }

  lemma OneLineOnly(content: string)
    requires '\n' !in content
    ensures LineStream.WholeLines(content) == if content == [] then [] else [content]
  {
    LineStream.BreakMeans(content, 0);
  }

  lemma FirstOfContent(content: string, line: string, rest: string)
    requires content == line + "\n" + rest && '\n' !in line
    ensures LineStream.WholeLines(content) ==
      [if EndsWith(line, "\r") then line[..|line| - 1] else line] + LineStream.WholeLines(rest)
  {
    hide LineStream.WholeLines, LineStream.NextBreak, LineStream.SplitLines;
    if EndsWith(line, "\r") {
      var short := line[..|line| - 1];
      assert content == short + "\r\n" + rest;
      LineStream.FirstBreak(content, short, "\r\n", rest);
      FirstOfWhole(content, short, "\r\n", rest);
    } else {
      LineStream.FirstBreak(content, line, "\n", rest);
      FirstOfWhole(content, line, "\n", rest);
    }
  }

  lemma FirstOfWhole(content: string, line: string, mark: string, rest: string)
    requires content == line + mark + rest
    requires LineStream.NextBreak(content, 0) == Some(LineStream.Break(|line|, |line| + |mark|))
    ensures LineStream.WholeLines(content) == [line] + LineStream.WholeLines(rest)
  {
    hide LineStream.NextBreak;
    assert content[..|line|] == line && content[|line| + |mark|..] == rest;
    var parts := LineStream.SplitLines(rest);
    assert LineStream.SplitLines(content) == [line] + parts;
    LineStream.InitOfConcat([line], parts);
  }

  lemma TermMeans(s: LegalSource, term: string)
    ensures MatchesTerm(s, term) <==> Mentions(s, term)
    ensures MatchesTitle(s, term) <==> InTitle(s, term)
    ensures Contains(s.content, term) && HasSubstantiveMatch(s.content, term) <==> InProse(s, term)
  {
    hide Contains, OccursIn, LooksLikeEmbeddedHeading, LineStream.WholeLines, Lines;
    forall text ensures Contains(text, term) <==> OccursIn(text, term) { ContainsIsOccurrence(text, term); }
    LinesAgree(s.content);
    var lines := Lines(s.content);
    assert forall line :: line in lines <==> exists k :: 0 <= k < |lines| && lines[k] == line;
  }

  lemma ContainsIsOccurrence(text: string, term: string)
    ensures Contains(text, term) <==> OccursIn(text, term)
  {
    ContainsMeans(text, term);
  }

  /** The key holds the counts the order speaks of. */
  lemma KeyMeans(r: Ranking, s: LegalSource)
    ensures Key(r, s).matchedTerms == Hits(r.terms, s)
    ensures Key(r, s).substantiveMatches == ProseHits(r.terms, s)
    ensures Key(r, s).articleTitleMatches == TitleHits(r.terms, s)
  {
    hide MatchesTerm, MatchesTitle, HasSubstantiveMatch, Contains, Mentions, InTitle, InProse, Count;
    forall term
      ensures MatchesTerm(s, term) <==> Mentions(s, term)
      ensures MatchesTitle(s, term) <==> InTitle(s, term)
      ensures Contains(s.content, term) && HasSubstantiveMatch(s.content, term) <==> InProse(s, term)
    {
      TermMeans(s, term);
    }
    var p, q, t := x => MatchesTerm(s, x), x => Contains(s.content, x) && HasSubstantiveMatch(s.content, x),
      x => MatchesTitle(s, x);
    CountIsCardinality(r.terms, p);
    CountIsCardinality(r.terms, q);
    CountIsCardinality(r.terms, t);
    assert (set k | 0 <= k < |r.terms| && p(r.terms[k])) == set k | 0 <= k < |r.terms| && Mentions(s, r.terms[k]);
    assert (set k | 0 <= k < |r.terms| && q(r.terms[k])) == set k | 0 <= k < |r.terms| && InProse(s, r.terms[k]);
    assert (set k | 0 <= k < |r.terms| && t(r.terms[k])) == set k | 0 <= k < |r.terms| && InTitle(s, r.terms[k]);
  }

  // ----- the comparator means this order -----

  lemma LevelMeans(level: string)
    ensures SourceAuthorityRank(level) == 9 - LevelsAbove(level, LEVELS)
  {
    var n := LevelsAbove(level, LEVELS);
    hide LevelsAbove;
    if n == 0 {
      assert level in LEVELS[0];
    } else if n == 1 {
      assert level in LEVELS[1];
    } else if n == 2 {
      assert level in LEVELS[2];
    } else if n == 3 {
      assert level in LEVELS[3];
    } else if n == 4 {
      assert level in LEVELS[4];
    } else if n == 5 {
      assert level in LEVELS[5];
    } else if n == 6 {
      assert level in LEVELS[6];
    } else if n == 7 {
      assert level in LEVELS[7];
    } else {
      UnknownLevel(level);
    }
  }

  lemma UnknownLevel(level: string)
    requires forall k :: 0 <= k < |LEVELS| ==> level !in LEVELS[k]
    ensures SourceAuthorityRank(level) == 1
  {
    assert level !in LEVELS[0] && level !in LEVELS[1] && level !in LEVELS[2] && level !in LEVELS[3];
    assert level !in LEVELS[4] && level !in LEVELS[5] && level !in LEVELS[6] && level !in LEVELS[7];
  }

  /** String order is dictionary order. */
  lemma {:induction false} LexLeMeans(a: string, b: string)
    ensures LexLe(a, b) <==> a == b || IsSmaller(a, b)
    decreases |a|
  {
    if a == [] {
      assert b != [] ==> a[..0] == b[..0];
    } else if b != [] {
      if a[0] == b[0] {
        LexLeMeans(a[1..], b[1..]);
        SmallerTails(a, b);
        assert a == [a[0]] + a[1..] && b == [b[0]] + b[1..];
      } else if a[0] < b[0] {
        assert a[..0] == b[..0];
      } else {
        SmallerStartsSmaller(a, b);
      }
    }
  }

  lemma SmallerStartsSmaller(a: string, b: string)
    requires a != [] && b != []
    ensures IsSmaller(a, b) ==> a[0] <= b[0]
  {
    if k: nat :| k <= |a| && k < |b| && a[..k] == b[..k] && (k == |a| || a[k] < b[k]) {
      assert k > 0 ==> a[..k][0] == b[..k][0];
    }
  }

  lemma SmallerTails(a: string, b: string)
    requires a != [] && b != [] && a[0] == b[0]
    ensures IsSmaller(a, b) <==> IsSmaller(a[1..], b[1..])
  {
    if k: nat :| k <= |a| && k < |b| && a[..k] == b[..k] && (k == |a| || a[k] < b[k]) {
      assert k > 0;
      assert a[1..][..k - 1] == a[..k][1..] && b[1..][..k - 1] == b[..k][1..];
    }
    if k: nat :|
      k <= |a[1..]| && k < |b[1..]| && a[1..][..k] == b[1..][..k] && (k == |a[1..]| || a[1..][k] < b[1..][k])
    {
      assert a[..k + 1] == [a[0]] + a[1..][..k] && b[..k + 1] == [b[0]] + b[1..][..k];
    }
  }

  lemma BeforeMeans(r: Ranking, s: LegalSource, t: LegalSource)
    ensures s.sourceId != t.sourceId ==> (Before(Key(r, s), Key(r, t)) <==> Outranks(r, s, t))
  {
    KeyMeans(r, s);
    KeyMeans(r, t);
    LevelMeans(Level(r, s));
    LevelMeans(Level(r, t));
    LexLeMeans(s.documentTitle, t.documentTitle);
    LexLeMeans(s.articleNumber, t.articleNumber);
    LexLeMeans(s.sourceId, t.sourceId);
    KeyTexts(r, s);
    KeyTexts(r, t);
    hide Key, Hits, ProseHits, TitleHits, LexLe, IsSmaller, LevelsAbove, SourceAuthorityRank, Level;
  }

  lemma KeyTexts(r: Ranking, s: LegalSource)
    ensures var key := Key(r, s);
      && key.authority == SourceAuthorityRank(Level(r, s)) && (key.inForce <==> s.versionStatus == "in_force")
      && key.title == s.documentTitle && key.article == s.articleNumber && key.id == s.sourceId
  {
  }

  /** Deduplication keeps exactly the first source of each id that is new. */
  lemma {:induction false} DedupKeepsFirst(sources: seq<LegalSource>, seen: set<string>, s: LegalSource)
    ensures s in DedupSources(sources, seen) <==> s.sourceId !in seen && IsCandidate(sources, s)
    decreases |sources|
  {
    if sources != [] {
      var head, tail := sources[0], sources[1..];
      DedupKeepsFirst(tail, if head.sourceId in seen then seen else seen + {head.sourceId}, s);
      CandidateOfTail(sources, s);
    }
  }

  lemma CandidateOfTail(sources: seq<LegalSource>, s: LegalSource)
    requires sources != []
    ensures IsCandidate(sources, s) <==>
      s == sources[0] || (s.sourceId != sources[0].sourceId && IsCandidate(sources[1..], s))
  {
    var tail := sources[1..];
    assert forall j :: 0 <= j < |tail| ==> tail[j] == sources[j + 1];
    if i :| 0 <= i < |sources| && sources[i] == s && forall j :: 0 <= j < i ==> sources[j].sourceId != s.sourceId {
      if i > 0 { assert tail[i - 1] == s; }
    }
    if i :| 0 <= i < |tail| && tail[i] == s && forall j :: 0 <= j < i ==> tail[j].sourceId != s.sourceId {
      assert sources[i + 1] == s;
      if s.sourceId != sources[0].sourceId {
        forall j | 0 <= j < i + 1 ensures sources[j].sourceId != s.sourceId {
          if j > 0 { assert tail[j - 1] == sources[j]; }
        }
      }
    }
  }

  // ----- the merged list -----

  /** What ranks before a source of the merged list is in the list too, in front of it. */
  lemma MergedInOrder(
    r: Ranking, primary: seq<LegalSource>, secondary: seq<LegalSource>, limit: int, s: LegalSource, t: LegalSource)
    requires IsCandidate(primary + secondary, s) && t in MergeAndRankSources(r, primary, secondary, limit)
    requires Outranks(r, s, t) && s.sourceId != t.sourceId
    ensures var merged := MergeAndRankSources(r, primary, secondary, limit);
      exists i, j :: 0 <= i < j < |merged| && merged[i] == s && merged[j] == t
  {
    hide Key, Before, Outranks, IsCandidate, DedupSources, MergeAndRankSources;
    var merged, candidates := MergeAndRankSources(r, primary, secondary, limit), DedupSources(primary + secondary, {});
    MergedListIsTheTop(r, primary, secondary, limit);
    DedupKeepsFirst(primary + secondary, {}, s);
    BeforeMeans(r, s, t);
    BeforeIsTotal(Key(r, s), Key(r, t));
    var i :| 0 <= i < |merged| && merged[i] == s;
    var j :| 0 <= j < |merged| && merged[j] == t;
    assert !(j < i) && i != j;
  }

  /** Of two sources, one outranks the other. */
  lemma OneOutranksTheOther(r: Ranking, s: LegalSource, t: LegalSource)
    requires s.sourceId != t.sourceId
    ensures Outranks(r, s, t) <==> !Outranks(r, t, s)
  {
    hide Key, Before, Outranks;
    BeforeMeans(r, s, t);
    BeforeMeans(r, t, s);
    BeforeIsTotal(Key(r, s), Key(r, t));
  }

  /** The merged list holds candidates, none twice, and as many as there are or as the limit allows. */
  lemma MergedKeepsAsManyAsFit(r: Ranking, primary: seq<LegalSource>, secondary: seq<LegalSource>, limit: int)
    ensures var merged, sources := MergeAndRankSources(r, primary, secondary, limit), primary + secondary;
      && (forall s :: s in merged ==> IsCandidate(sources, s)) && Distinct(SourceIds(merged))
      && |merged| == if limit <= 0 then 0 else if limit < |Ids(sources)| then limit else |Ids(sources)|
  {
    hide Key, Before, IsCandidate, DedupSources, SortSources;
    var sources := primary + secondary;
    var candidates := DedupSources(sources, {});
    MergedListIsTheTop(r, primary, secondary, limit);
    forall s | s in candidates ensures IsCandidate(sources, s) { DedupKeepsFirst(sources, {}, s); }
    DedupKeepsIds(sources, {});
    DedupIsDistinct(sources, {});
    DistinctIds(candidates);
    SortRanks(r, candidates);
  }

  lemma {:induction false} DistinctIds(sources: seq<LegalSource>)
    requires Distinct(SourceIds(sources))
    ensures |Ids(sources)| == |sources|
    decreases |sources|
  {
    if sources != [] {
      var init, last := sources[..|sources| - 1], sources[|sources| - 1];
      assert sources == init + [last];
      assert forall i, j :: 0 <= i < j < |sources| ==> SourceIds(sources)[i] != SourceIds(sources)[j];
      DistinctIds(init);
      assert Ids(sources) == Ids(init) + {last.sourceId};
      assert last.sourceId !in Ids(init) by {
        forall s | s in init ensures s.sourceId != last.sourceId {
          var i :| 0 <= i < |init| && init[i] == s;
        }
      }
    }
  }
}
