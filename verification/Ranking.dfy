/** Merging two result lists: deduplication by source, the ranking order, and truncation. */
module Ranking {
  import opened Wrappers
  import opened Text
  import opened Sources
  import opened Effectiveness

  // ----- what sources are ranked by -----

  datatype Ranking = Ranking(terms: seq<string>, levels: map<string, string>)

  datatype RankKey = RankKey(
    matchedTerms: nat,
    substantiveMatches: nat,
    articleTitleMatches: nat,
    authority: nat,
    inForce: bool,
    title: string,
    article: string,
    id: string)

  /** The lines of a text; a line ending is LF or CRLF. */
  function Lines(content: string): seq<string>
    decreases |content|
  {
    if content == [] then []
    else
      match Find(content, "\n", 0)
      case None => [content]
      case Some(i) =>
        [if EndsWith(content[..i], "\r") then content[..i - 1] else content[..i]] + Lines(content[i + 1..])
  }

  predicate LooksLikeEmbeddedHeading(line: string) {
    var compact := Trim(line);
    |compact| <= 48 && StartsWith(compact, "第") && ContainsAny(compact, ["编", "篇", "章", "节"])
  }

  predicate HasSubstantiveMatch(content: string, term: string) {
    exists line :: line in Lines(content) && Contains(line, term) && !LooksLikeEmbeddedHeading(line)
  }

  predicate MatchesTitle(source: LegalSource, term: string) {
    source.articleTitle.Some? && Contains(source.articleTitle.value, term)
  }

  predicate MatchesTerm(source: LegalSource, term: string) {
    || Contains(source.documentTitle, term)
    || Contains(source.articleNumber, term)
    || MatchesTitle(source, term)
    || Contains(source.content, term)
  }

  function Count(terms: seq<string>, p: string -> bool): nat {
    if terms == [] then 0 else (if p(terms[0]) then 1 else 0) + Count(terms[1..], p)
  }

  function SourceAuthorityRank(level: string): nat {
    match level
    case "constitution" => 9
    case "national_law" => 8
    case "administrative_regulation" => 7
    case "supervision_regulation" => 7
    case "judicial_interpretation" => 6
    case "department_rule" => 5
    case "autonomous_regulation" => 4
    case "special_zone_regulation" => 4
    case "local_regulation" => 3
    case "local_government_rule" => 2
    case _ => 1
  }

  function Key(r: Ranking, source: LegalSource): (key: RankKey)
    ensures key.id == source.sourceId
  {
    RankKey(
      Count(r.terms, t => MatchesTerm(source, t)),
      Count(r.terms, t => Contains(source.content, t) && HasSubstantiveMatch(source.content, t)),
      Count(r.terms, t => MatchesTitle(source, t)),
      SourceAuthorityRank(if source.documentId in r.levels then r.levels[source.documentId] else ""),
      source.versionStatus == IN_FORCE,
      source.documentTitle,
      source.articleNumber,
      source.sourceId)
  }

  /** The comparator: match counts and authority downwards, in force first, then the texts upwards. */
  predicate Before(a: RankKey, b: RankKey) {
    if a.matchedTerms != b.matchedTerms then a.matchedTerms > b.matchedTerms
    else if a.substantiveMatches != b.substantiveMatches then a.substantiveMatches > b.substantiveMatches
    else if a.articleTitleMatches != b.articleTitleMatches then a.articleTitleMatches > b.articleTitleMatches
    else if a.authority != b.authority then a.authority > b.authority
    else if a.inForce != b.inForce then a.inForce
    else if a.title != b.title then LexLe(a.title, b.title)
    else if a.article != b.article then LexLe(a.article, b.article)
    else a.id != b.id && LexLe(a.id, b.id)
  }

  /** The comparator is a strict total order on keys. */
  lemma BeforeIsTotal(a: RankKey, b: RankKey)
    ensures a != b ==> Before(a, b) || Before(b, a)
    ensures !(Before(a, b) && Before(b, a))
  {
    LexTotal(a.title, b.title);
    LexTotal(a.article, b.article);
    LexTotal(a.id, b.id);
    hide LexLe;
  }

  lemma BeforeIsTransitive(a: RankKey, b: RankKey, c: RankKey)
    requires Before(a, b) && Before(b, c)
    ensures Before(a, c)
  {
    BeforeIsTotal(a, b);
    LexTotal(a.title, c.title);
    LexTotal(b.title, c.title);
    LexTotal(a.title, b.title);
    LexTotal(a.article, b.article);
    LexTotal(b.article, c.article);
    LexTotal(a.article, c.article);
    LexTotal(a.id, b.id);
    LexTotal(b.id, c.id);
    if LexLe(a.title, b.title) && LexLe(b.title, c.title) { LexTransitive(a.title, b.title, c.title); }
    if LexLe(a.article, b.article) && LexLe(b.article, c.article) { LexTransitive(a.article, b.article, c.article); }
    if LexLe(a.id, b.id) && LexLe(b.id, c.id) { LexTransitive(a.id, b.id, c.id); }
    hide LexLe;
  }

  // ----- merging -----

  /** Keeps the first source of every id. */
  function DedupSources(sources: seq<LegalSource>, seen: set<string>): seq<LegalSource> {
    if sources == [] then []
    else if sources[0].sourceId in seen then DedupSources(sources[1..], seen)
    else [sources[0]] + DedupSources(sources[1..], seen + {sources[0].sourceId})
  }

  /** A stable sort by the comparator. */
  function Insert(r: Ranking, x: LegalSource, sorted: seq<LegalSource>): seq<LegalSource> {
    if sorted == [] || !Before(Key(r, sorted[0]), Key(r, x)) then [x] + sorted
    else [sorted[0]] + Insert(r, x, sorted[1..])
  }

  function SortSources(r: Ranking, sources: seq<LegalSource>): seq<LegalSource> {
    if sources == [] then [] else Insert(r, sources[0], SortSources(r, sources[1..]))
  }

  function Truncate<T>(xs: seq<T>, limit: int): seq<T> {
    if limit <= 0 then [] else if limit < |xs| then xs[..limit] else xs
  }

  function MergeAndRankSources(
    r: Ranking, primary: seq<LegalSource>, secondary: seq<LegalSource>, limit: int): seq<LegalSource>
  {
    Truncate(SortSources(r, DedupSources(primary + secondary, {})), limit)
  }

  // ----- deduplication -----

  function SourceIds(sources: seq<LegalSource>): (ids: seq<string>)
    ensures |ids| == |sources| && forall i :: 0 <= i < |ids| ==> ids[i] == sources[i].sourceId
  {
    seq(|sources|, i requires 0 <= i < |sources| => sources[i].sourceId)
  }

  ghost function Ids(sources: seq<LegalSource>): set<string> {
    set s | s in sources :: s.sourceId
  }

  /** Deduplication keeps some source of every new id, and nothing else. */
  lemma {:induction false} DedupKeepsIds(sources: seq<LegalSource>, seen: set<string>)
    ensures Ids(DedupSources(sources, seen)) == Ids(sources) - seen
    ensures forall s :: s in DedupSources(sources, seen) ==> s in sources
    decreases |sources|
  {
    if sources != [] {
      var head, tail := sources[0], sources[1..];
      assert sources == [head] + tail;
      assert Ids(sources) == {head.sourceId} + Ids(tail);
      var next := if head.sourceId in seen then seen else seen + {head.sourceId};
      DedupKeepsIds(tail, next);
      var kept := DedupSources(tail, next);
      assert Ids([head] + kept) == {head.sourceId} + Ids(kept);
    }
  }

  lemma {:induction false} DedupIsDistinct(sources: seq<LegalSource>, seen: set<string>)
    ensures Distinct(SourceIds(DedupSources(sources, seen)))
    decreases |sources|
  {
    if sources != [] {
      var head, tail := sources[0], sources[1..];
      var next := if head.sourceId in seen then seen else seen + {head.sourceId};
      DedupIsDistinct(tail, next);
      DedupKeepsIds(tail, next);
      var kept := DedupSources(tail, next);
      assert forall i :: 0 <= i < |kept| ==> kept[i].sourceId in Ids(kept);
    }
  }

  // ----- sorting -----

  ghost predicate Ranked(r: Ranking, sources: seq<LegalSource>) {
    forall i, j :: 0 <= i < j < |sources| ==> Before(Key(r, sources[i]), Key(r, sources[j]))
  }

  lemma {:induction false} InsertRanks(r: Ranking, x: LegalSource, sorted: seq<LegalSource>)
    requires Ranked(r, sorted)
    requires forall s :: s in sorted ==> Key(r, s) != Key(r, x)
    ensures Ranked(r, Insert(r, x, sorted))
    ensures forall s :: s in Insert(r, x, sorted) <==> s == x || s in sorted
    ensures |Insert(r, x, sorted)| == |sorted| + 1
    decreases |sorted|
  {
    hide Key, Before;
    if sorted != [] {
      var head, tail := sorted[0], sorted[1..];
      assert sorted == [head] + tail;
      BeforeIsTotal(Key(r, head), Key(r, x));
      if Before(Key(r, head), Key(r, x)) {
        InsertRanks(r, x, tail);
        var rest := Insert(r, x, tail);
        forall j | 0 <= j < |rest| ensures Before(Key(r, head), Key(r, rest[j])) {
          assert rest[j] in rest;
          if rest[j] != x {
            var k :| 0 <= k < |tail| && tail[k] == rest[j];
            assert Before(Key(r, sorted[0]), Key(r, sorted[k + 1]));
          }
        }
      } else {
        forall j | 0 <= j < |sorted| ensures Before(Key(r, x), Key(r, sorted[j])) {
          if j > 0 { BeforeIsTransitive(Key(r, x), Key(r, head), Key(r, sorted[j])); }
        }
      }
    }
  }

  lemma {:induction false} SortRanks(r: Ranking, sources: seq<LegalSource>)
    requires Distinct(SourceIds(sources))
    ensures Ranked(r, SortSources(r, sources))
    ensures forall s :: s in SortSources(r, sources) <==> s in sources
    ensures |SortSources(r, sources)| == |sources|
    decreases |sources|
  {
    hide Key, Before;
    if sources != [] {
      var tail := sources[1..];
      assert sources == [sources[0]] + tail;
      SortRanks(r, tail);
      InsertRanks(r, sources[0], SortSources(r, tail));
    }
  }

  // ----- the merged list -----

  /**
   The merged list has no repeated source, is sorted by the comparator, has as
   many entries as the limit allows, and ranks before everything it omits.
   */
  lemma MergedListIsTheTop(r: Ranking, primary: seq<LegalSource>, secondary: seq<LegalSource>, limit: int)
    ensures var merged := MergeAndRankSources(r, primary, secondary, limit);
      var candidates := DedupSources(primary + secondary, {});
      && Ranked(r, merged) && Distinct(SourceIds(merged))
      && (forall s :: s in merged ==> s in candidates)
      && (|merged| == |candidates| || |merged| == if limit <= 0 then 0 else limit)
      && (forall s, t :: s in merged && t in candidates && t !in merged ==> Before(Key(r, s), Key(r, t)))
  {
    hide Key, Before, DedupSources, SortSources;
    var candidates := DedupSources(primary + secondary, {});
    DedupIsDistinct(primary + secondary, {});
    SortRanks(r, candidates);
    var sorted := SortSources(r, candidates);
    var merged := MergeAndRankSources(r, primary, secondary, limit);
    PrefixIsTheTop(r, sorted, |merged|);
    assert merged == sorted[..|merged|];
    RankedIsDistinct(r, candidates, merged);
  }

  lemma PrefixIsTheTop(r: Ranking, sorted: seq<LegalSource>, n: nat)
    requires n <= |sorted| && Ranked(r, sorted)
    ensures Ranked(r, sorted[..n])
    ensures forall s, t :: s in sorted[..n] && t in sorted && t !in sorted[..n] ==> Before(Key(r, s), Key(r, t))
  {
    hide Key, Before;
    forall s, t | s in sorted[..n] && t in sorted && t !in sorted[..n] ensures Before(Key(r, s), Key(r, t)) {
      var i :| 0 <= i < n && sorted[i] == s;
      var j :| 0 <= j < |sorted| && sorted[j] == t;
      assert j < n ==> sorted[..n][j] == t;
    }
  }

  lemma RankedIsDistinct(r: Ranking, candidates: seq<LegalSource>, ranked: seq<LegalSource>)
    requires Distinct(SourceIds(candidates)) && Ranked(r, ranked) && forall s :: s in ranked ==> s in candidates
    ensures Distinct(SourceIds(ranked))
  {
    hide Key, Before;
    forall i, j | 0 <= i < j < |ranked| ensures ranked[i].sourceId != ranked[j].sourceId {
      assert ranked[i] in ranked && ranked[j] in ranked;
      BeforeIsTotal(Key(r, ranked[i]), Key(r, ranked[j]));
      assert Before(Key(r, ranked[i]), Key(r, ranked[j]));
    }
  }

  // ----- the order of the two lists does not matter -----

  function Keys(r: Ranking, sources: seq<LegalSource>): (keys: seq<RankKey>)
    ensures |keys| == |sources|
    ensures forall i :: 0 <= i < |keys| ==> keys[i] == Key(r, sources[i])
  {
    seq(|sources|, i requires 0 <= i < |sources| => Key(r, sources[i]))
  }

  ghost predicate StrictlySorted(keys: seq<RankKey>) {
    forall i, j :: 0 <= i < j < |keys| ==> Before(keys[i], keys[j])
  }

  lemma NothingInEmpty(keys: seq<RankKey>)
    ensures keys == [] || keys[0] in keys
  {
  }

  /** A strictly sorted list is determined by what it contains. */
  lemma {:induction false} SortedListIsUnique(xs: seq<RankKey>, ys: seq<RankKey>)
    requires StrictlySorted(xs) && StrictlySorted(ys)
    requires forall k :: k in xs <==> k in ys
    ensures xs == ys
    decreases |xs|
  {
    hide Before;
    if xs == [] {
      assert forall k :: k !in ys;
      NothingInEmpty(ys);
    } else {
      assert xs[0] in ys;
      assert ys[0] in xs;
      var i :| 0 <= i < |ys| && ys[i] == xs[0];
      var j :| 0 <= j < |xs| && xs[j] == ys[0];
      BeforeIsTotal(xs[0], ys[0]);
      assert i == 0;
      TailElements(xs);
      TailElements(ys);
      SortedListIsUnique(xs[1..], ys[1..]);
      assert xs == [xs[0]] + xs[1..] && ys == [ys[0]] + ys[1..];
    }
  }

  lemma TailElements(xs: seq<RankKey>)
    requires StrictlySorted(xs) && xs != []
    ensures StrictlySorted(xs[1..])
    ensures forall k :: k in xs[1..] <==> k in xs && k != xs[0]
  {
    hide Before;
    forall i | 1 <= i < |xs| ensures xs[i] != xs[0] {
      BeforeIsTotal(xs[0], xs[i]);
    }
    assert xs == [xs[0]] + xs[1..];
  }

  /** Rows of the same source agree on everything the comparator looks at. */
  ghost predicate SameIdSameKey(r: Ranking, sources: seq<LegalSource>) {
    forall s, t :: s in sources && t in sources && s.sourceId == t.sourceId ==> Key(r, s) == Key(r, t)
  }

  ghost function KeySet(r: Ranking, sources: seq<LegalSource>): set<RankKey> {
    set s | s in sources :: Key(r, s)
  }

  /** The sorted, deduplicated list is strictly sorted and has the keys of the input. */
  lemma SortedKeys(r: Ranking, sources: seq<LegalSource>)
    requires SameIdSameKey(r, sources)
    ensures var keys := Keys(r, SortSources(r, DedupSources(sources, {})));
      StrictlySorted(keys) && forall k :: k in keys <==> k in KeySet(r, sources)
  {
    hide Key, Before, DedupSources, SortSources;
    var kept := DedupSources(sources, {});
    DedupKeepsIds(sources, {});
    DedupIsDistinct(sources, {});
    SortRanks(r, kept);
    var sorted := SortSources(r, kept);
    forall k ensures k in Keys(r, sorted) <==> k in KeySet(r, sources) {
      if k in Keys(r, sorted) {
        var i :| 0 <= i < |sorted| && Keys(r, sorted)[i] == k;
        assert sorted[i] in sorted;
      }
      if k in KeySet(r, sources) {
        var s :| s in sources && Key(r, s) == k;
        assert s.sourceId in Ids(kept);
        var t :| t in kept && t.sourceId == s.sourceId;
        assert t in sorted && Key(r, t) == k;
        var i :| 0 <= i < |sorted| && sorted[i] == t;
        assert Keys(r, sorted)[i] == k;
      }
    }
  }

  /** Merging in either order gives the same sources in the same order. */
  lemma MergeIsOrderIndependent(r: Ranking, primary: seq<LegalSource>, secondary: seq<LegalSource>, limit: int)
    requires SameIdSameKey(r, primary + secondary)
    ensures var one := MergeAndRankSources(r, primary, secondary, limit);
      var other := MergeAndRankSources(r, secondary, primary, limit);
      && Keys(r, one) == Keys(r, other)
      && |one| == |other| && forall i :: 0 <= i < |one| ==> one[i].sourceId == other[i].sourceId
  {
    hide Key, Before, StrictlySorted, DedupSources, SortSources;
    var ps, sp := primary + secondary, secondary + primary;
    assert forall s :: s in ps <==> s in sp;
    SortedKeys(r, ps);
    SortedKeys(r, sp);
    assert KeySet(r, ps) == KeySet(r, sp);
    var a, b := SortSources(r, DedupSources(ps, {})), SortSources(r, DedupSources(sp, {}));
    SortedListIsUnique(Keys(r, a), Keys(r, b));
    TruncatedKeys(r, a, b, limit);
  }

  lemma TruncatedKeys(r: Ranking, a: seq<LegalSource>, b: seq<LegalSource>, limit: int)
    requires Keys(r, a) == Keys(r, b)
    ensures var x, y := Truncate(a, limit), Truncate(b, limit);
      Keys(r, x) == Keys(r, y) && |x| == |y| && forall i :: 0 <= i < |x| ==> x[i].sourceId == y[i].sourceId
  {
    hide Key;
    assert |a| == |Keys(r, a)| == |b|;
    forall i | 0 <= i < |a| ensures Key(r, a[i]) == Key(r, b[i]) {
      assert Keys(r, a)[i] == Keys(r, b)[i];
    }
  }
}
