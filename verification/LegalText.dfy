/**
 The text heuristics the citation checker is built from: what counts as a
 refusal, a heading or a provision label, and where a sentence may be cut into
 separate conclusions.
 */
module LegalText {
  import opened Wrappers
  import opened Text
  import opened Markers

  // ----- the word lists -----

  /**
   The word lists the heuristics look for, and the class of alphanumeric
   characters. Everything proved about the heuristics holds for all lists;
   `LegalLexicon` names the ones in use.
   */
  datatype Lexicon = Lexicon(
    alnum: Alphanumeric,
    headings: seq<string>,
    refusals: seq<Word>,
    connectives: seq<Word>,
    connectors: seq<Connector>,
    predicates: seq<string>,
    modals: seq<string>,
    conditions: seq<string>)

  /** A connector is a nonempty word that cannot begin a marker. */
  type Connector = w: string | w != [] && '[' !in w witness "x"

  const HEADINGS: seq<string> := [
    "案情概述", "事实概述", "争议焦点", "法律分析", "法律依据", "证据分析", "处理建议", "诉讼策略",
    "风险提示", "请求事项", "答复", "结论", "引用来源", "综上", "据此", "具体如下", "分析如下",
    "答复如下", "结论如下"]

  const REFUSALS: seq<Word> := ["无法由当前来源支持", "当前来源不足", "未找到本地来源", "不能据此得出法律结论"]

  const REFUSAL_CONNECTIVES: seq<Word> := ["但", "因此", "所以", "故", "仅", "只能", "暂时", "目前", "尚"]

  const CONNECTORS: seq<Connector> := [
    "并且", "而且", "同时", "以及", "但是", "此外", "然而", "或者", "并可", "并应", "亦", "又",
    "还", "或", "且", "但", "并", "而"]

  const PREDICATES: seq<string> := [
    "应当", "必须", "不得", "无权", "有权", "可以", "承担", "负责", "支付", "赔偿", "履行",
    "采取", "返还", "构成", "有效", "无效", "解除", "终止", "撤销", "确认", "判令", "支持",
    "驳回", "归还", "给付", "应", "须"]

  const MODALS: seq<string> := ["应当", "必须", "不得", "有权", "无权", "可以", "须"]

  const CONDITIONS: seq<string> := [
    "如果", "若", "如", "当", "因", "由于", "在", "一旦", "不履行", "未履行", "履行不符合",
    "不符合约定", "未按约", "造成", "导致"]

  function LegalLexicon(alnum: Alphanumeric): Lexicon {
    Lexicon(alnum, HEADINGS, REFUSALS, REFUSAL_CONNECTIVES, CONNECTORS, PREDICATES, MODALS, CONDITIONS)
  }

  // ----- presentation-only text -----

  const CHINESE_ORDINALS := "一二三四五六七八九十百千"

  predicate IsProvisionOrdinal(c: char) {
    IsAsciiDigit(c) || c in CHINESE_ORDINALS || c in "万零〇两之"
  }

  predicate IsPureProvisionLabel(value: string) {
    var bare := TrimWhile(value, c => c in "：:。；;，,（）()[]【】");
    match RFind(bare, '第')
    case None => false
    case Some(start) =>
      var lawName, ordinal := bare[..start], bare[start..];
      && ordinal[|ordinal| - 1] in "条款项章节"
      && |ordinal| >= 2
      && var body := ordinal[1..|ordinal| - 1];
      && body != [] && |body| <= 24 && AllChars(body, IsProvisionOrdinal)
      && (lawName == [] || (lawName[0] == '《' && lawName[|lawName| - 1] == '》'))
  }

  /** Drops one leading ordinal such as `（三）` or `第2章`. */
  function StripHeadingOrdinal(value: string): (r: string)
    ensures |r| <= |value|
  {
    var inner := TrimStartWhile(value, c => c in "（([【");
    var rest := TrimStartWhile(inner, c => IsAsciiDigit(c) || c in CHINESE_ORDINALS || c in "第部分章节");
    if |rest| == |inner| then inner
    else TrimStartWhile(rest, c => c in "）)]】、.．:：-—")
  }

  function StripHeadingOrdinals(value: string): string
    decreases |value|
  {
    var next := StripHeadingOrdinal(value);
    if |next| < |value| then StripHeadingOrdinals(next) else next
  }

  predicate IsPureFormattingOrHeading(lex: Lexicon, value: string) {
    var trimmed := Trim(value);
    var headingColon := EndsWith(trimmed, "：") || EndsWith(trimmed, ":");
    var compact := FilterChars(value, c => !IsWhitespace(c) && c !in "#*_`：:。；;-—");
    || IsPureProvisionLabel(compact)
    || (headingColon && |compact| <= 32 && !ContainsLegalPredicate(lex, compact))
    || var title := StripHeadingOrdinals(compact); title in lex.headings || !AnyChar(title, lex.alnum)
  }

  predicate IsPureSourceRefusal(lex: Lexicon, answer: string) {
    && RefusalFound(answer, lex.refusals)
    && IsBareOfWords(EraseAll(EraseAll(answer, lex.refusals), lex.connectives))
  }

  /** Whether some refusal is still present when its turn to be erased comes. */
  predicate RefusalFound(remainder: string, refusals: seq<Word>)
    decreases |refusals|
  {
    refusals != [] && (Contains(remainder, refusals[0]) || RefusalFound(Erase(remainder, refusals[0]), refusals[1..]))
  }

  /** The words erased one after the other, each from what the ones before it left. */
  ghost predicate AreStages(words: seq<Word>, stages: seq<string>) {
    && |stages| == |words| + 1
    && forall k :: 0 <= k < |words| ==> IsErased(stages[k], words[k], stages[k + 1])
  }

  ghost predicate IsErased(s: string, word: Word, r: string) {
    exists pieces :: ArePieces(s, word, pieces) && r == Joined(pieces, [])
  }

  lemma ErasedMeans(s: string, word: Word, r: string)
    ensures IsErased(s, word, r) <==> r == Erase(s, word)
  {
    hide ArePieces, Erase, Joined;
    var pieces := EraseMeans(s, word);
    if p :| ArePieces(s, word, p) && r == Joined(p, []) { PiecesAreErased(s, word, p); }
  }

  function Stages(s: string, words: seq<Word>): (stages: seq<string>)
    ensures |stages| == |words| + 1 && stages[0] == s
    decreases |words|
  {
    if words == [] then [s] else [s] + Stages(Erase(s, words[0]), words[1..])
  }

  lemma {:induction false} StagesMean(s: string, words: seq<Word>, stages: seq<string>)
    ensures AreStages(words, stages) && stages[0] == s <==> stages == Stages(s, words)
    decreases |words|
  {
    hide IsErased, Erase;
    if |stages| != |words| + 1 {
    } else if words == [] {
      assert stages == [stages[0]];
    } else {
      var rest := stages[1..];
      forall r ensures IsErased(s, words[0], r) <==> r == Erase(s, words[0]) { ErasedMeans(s, words[0], r); }
      StagesMean(Erase(s, words[0]), words[1..], rest);
      assert forall k :: 0 <= k < |words| - 1 ==> words[1..][k] == words[k + 1] && rest[k] == stages[k + 1];
      assert stages == [stages[0]] + rest;
      assert AreStages(words, stages) <==>
        IsErased(stages[0], words[0], stages[1]) && AreStages(words[1..], rest) by { FirstStage(words, stages); }
    }
  }

  lemma FirstStage(words: seq<Word>, stages: seq<string>)
    requires words != [] && |stages| == |words| + 1
    ensures AreStages(words, stages) <==>
      IsErased(stages[0], words[0], stages[1]) && AreStages(words[1..], stages[1..])
  {
    hide IsErased;
    if IsErased(stages[0], words[0], stages[1]) && AreStages(words[1..], stages[1..]) {
      forall k | 0 <= k < |words| ensures IsErased(stages[k], words[k], stages[k + 1]) {
        if k > 0 { assert IsErased(stages[1..][k - 1], words[1..][k - 1], stages[1..][k]); }
      }
    }
    if AreStages(words, stages) {
      forall k | 0 <= k < |words[1..]| ensures IsErased(stages[1..][k], words[1..][k], stages[1..][k + 1]) {
        assert IsErased(stages[k + 1], words[k + 1], stages[k + 2]);
      }
    }
  }

  lemma {:induction false} LastStage(s: string, words: seq<Word>)
    ensures Stages(s, words)[|words|] == EraseAll(s, words)
    decreases |words|
  {
    hide Erase;
    if words != [] { LastStage(Erase(s, words[0]), words[1..]); }
  }

  lemma {:induction false} FoundInStage(s: string, refusals: seq<Word>)
    ensures RefusalFound(s, refusals) <==>
      exists k :: 0 <= k < |refusals| && Contains(Stages(s, refusals)[k], refusals[k])
    decreases |refusals|
  {
    hide Erase, Contains;
    if refusals != [] {
      var rest, stages := refusals[1..], Stages(s, refusals);
      FoundInStage(Erase(s, refusals[0]), rest);
      if k :| 0 <= k < |refusals| && Contains(stages[k], refusals[k]) {
        if k > 0 { assert stages[k] == stages[1..][k - 1] && refusals[k] == rest[k - 1]; }
      }
      if k :| 0 <= k < |rest| && Contains(stages[1..][k], rest[k]) {
        assert Contains(stages[k + 1], refusals[k + 1]);
      }
    }
  }

  lemma {:induction false} StagesAppend(s: string, first: seq<Word>, second: seq<Word>)
    ensures Stages(s, first + second) == Stages(s, first)[..|first|] + Stages(EraseAll(s, first), second)
    decreases |first|
  {
    hide Erase;
    if first == [] {
      assert first + second == second;
    } else {
      var next := Erase(s, first[0]);
      StagesAppend(next, first[1..], second);
      assert (first + second)[1..] == first[1..] + second && (first + second)[0] == first[0];
      assert Stages(s, first) == [s] + Stages(next, first[1..]);
      assert Stages(s, first + second) == [s] + Stages(next, first[1..] + second);
      assert EraseAll(s, first) == EraseAll(next, first[1..]);
      hide Stages, EraseAll;
      ConsPrefix(s, Stages(next, first[1..]), |first|, Stages(EraseAll(s, first), second));
    }
  }

  lemma ConsPrefix(s: string, stages: seq<string>, n: nat, more: seq<string>)
    requires 1 <= n <= |stages| + 1
    ensures ([s] + stages)[..n] + more == [s] + (stages[..n - 1] + more)
  {
  }

  /** The stages of erasing refusals and then connectives: some refusal is met, and no word is left at the end. */
  ghost predicate AreRefusalStages(lex: Lexicon, answer: string, stages: seq<string>) {
    && AreStages(lex.refusals + lex.connectives, stages) && stages[0] == answer
    && (exists k :: 0 <= k < |lex.refusals| && Contains(stages[k], lex.refusals[k]))
    && IsBareOfWords(stages[|stages| - 1])
  }

  predicate IsBareOfWords(s: string) {
    AllChars(s, c => IsWhitespace(c) || c in "，,。！？!?；;：:、（）()“”‘’《》-—")
  }

  lemma RefusalStages(lex: Lexicon, answer: string, stages: seq<string>)
    ensures AreStages(lex.refusals + lex.connectives, stages) && stages[0] == answer <==>
      stages == Stages(answer, lex.refusals + lex.connectives)
    ensures stages == Stages(answer, lex.refusals + lex.connectives) ==>
      && (RefusalFound(answer, lex.refusals) <==>
        exists k :: 0 <= k < |lex.refusals| && Contains(stages[k], lex.refusals[k]))
      && stages[|stages| - 1] == EraseAll(EraseAll(answer, lex.refusals), lex.connectives)
  {
    hide Contains, EraseAll, RefusalFound;
    StagesMean(answer, lex.refusals + lex.connectives, stages);
    StagesAppend(answer, lex.refusals, lex.connectives);
    LastStage(EraseAll(answer, lex.refusals), lex.connectives);
    FoundInStage(answer, lex.refusals);
    hide Stages, AreStages;
    var front := Stages(answer, lex.refusals);
    if stages == Stages(answer, lex.refusals + lex.connectives) {
      assert forall k :: 0 <= k < |lex.refusals| ==> stages[k] == front[k];
    }
  }

  /**
   A refusal is pure iff, erasing the refusals and then the connectives one after
   the other, some refusal is met and only whitespace and punctuation are left.
   */
  lemma PureRefusalMeans(lex: Lexicon, answer: string)
    ensures IsPureSourceRefusal(lex, answer) <==> exists stages :: AreRefusalStages(lex, answer, stages)
  {
    hide IsBareOfWords, RefusalFound, EraseAll, Contains, Stages, AreStages;
    var all := Stages(answer, lex.refusals + lex.connectives);
    RefusalStages(lex, answer, all);
    if stages :| AreRefusalStages(lex, answer, stages) { RefusalStages(lex, answer, stages); }
    assert IsPureSourceRefusal(lex, answer) ==> AreRefusalStages(lex, answer, all);
  }

  /** A piece of text that needs no source: a refusal or a heading. */
  predicate IsPresentation(lex: Lexicon, piece: string) {
    IsPureSourceRefusal(lex, piece) || IsPureFormattingOrHeading(lex, piece)
  }

  predicate LooksLikeLegalAnswer(lex: Lexicon, answer: string) {
    var trimmed := Trim(RemoveSourceMarkers(answer));
    && trimmed != []
    && !IsPresentation(lex, trimmed)
    && AnyChar(trimmed, lex.alnum)
  }

  // ----- where a sentence may be cut -----

  predicate ContainsLegalPredicate(lex: Lexicon, value: string) {
    ContainsAny(value, lex.predicates)
  }

  /** The first connector of the list that starts at an offset. */
  function LegalConnectorAt(lex: Lexicon, answer: string, index: nat): (r: Option<Connector>)
    ensures r.Some? ==> index + |r.value| <= |answer| && OccursAt(answer, r.value, index)
  {
    FirstAt(answer, index, lex.connectors)
  }

  function FirstAt(answer: string, index: nat, connectors: seq<Connector>): (r: Option<Connector>)
    ensures r.Some? ==> index + |r.value| <= |answer| && OccursAt(answer, r.value, index)
  {
    if connectors == [] then None
    else if OccursAt(answer, connectors[0], index) then Some(connectors[0])
    else FirstAt(answer, index, connectors[1..])
  }

  /** The connector found is the first of the list that occurs there; none is found iff none occurs. */
  lemma {:induction false} FirstConnector(answer: string, index: nat, connectors: seq<Connector>)
    ensures var r := FirstAt(answer, index, connectors);
      && (r.None? <==> forall k :: 0 <= k < |connectors| ==> !OccursAt(answer, connectors[k], index))
      && (r.Some? ==>
        exists k :: 0 <= k < |connectors| && IsFirst(answer, index, connectors, k) && connectors[k] == r.value)
    decreases |connectors|
  {
    hide OccursAt;
    if connectors != [] {
      var rest := connectors[1..];
      FirstConnector(answer, index, rest);
      assert forall k :: 1 <= k < |connectors| ==> connectors[k] == rest[k - 1];
      if OccursAt(answer, connectors[0], index) {
        assert IsFirst(answer, index, connectors, 0);
      } else if FirstAt(answer, index, rest).Some? {
        var k :| 0 <= k < |rest| && IsFirst(answer, index, rest, k) && rest[k] == FirstAt(answer, index, rest).value;
        assert IsFirst(answer, index, connectors, k + 1);
      }
    }
  }

  ghost predicate IsFirst(answer: string, index: nat, connectors: seq<Connector>, k: nat) {
    && k < |connectors| && OccursAt(answer, connectors[k], index)
    && forall j :: 0 <= j < k ==> !OccursAt(answer, connectors[j], index)
  }

  predicate DelimiterIsBetweenAsciiDigits(answer: string, index: nat) {
    && 0 < index && index + 1 < |answer|
    && IsAsciiDigit(answer[index - 1]) && IsAsciiDigit(answer[index + 1])
  }

  predicate IsSentenceEnd(c: char) {
    c in "。！？!?；;\n"
  }

  predicate IsLegalSegmentDelimiter(answer: string, index: nat)
    requires index < |answer|
  {
    if answer[index] in ":：" then !DelimiterIsBetweenAsciiDigits(answer, index)
    else IsSentenceEnd(answer[index])
  }

  /** The next segment delimiter at or after an offset, or the end. */
  function NextSegmentDelimiter(answer: string, from: nat): (r: nat)
    requires from <= |answer|
    ensures from <= r <= |answer|
    decreases |answer| - from
  {
    if from == |answer| || IsLegalSegmentDelimiter(answer, from) then from
    else NextSegmentDelimiter(answer, from + 1)
  }

  /** It is a delimiter unless it is the end, and there is none in between. */
  lemma {:induction false} NearestDelimiter(answer: string, from: nat)
    requires from <= |answer|
    ensures var r := NextSegmentDelimiter(answer, from);
      && (r < |answer| ==> IsLegalSegmentDelimiter(answer, r))
      && forall j :: from <= j < r ==> !IsLegalSegmentDelimiter(answer, j)
    decreases |answer| - from
  {
    hide IsLegalSegmentDelimiter;
    if from < |answer| && !IsLegalSegmentDelimiter(answer, from) { NearestDelimiter(answer, from + 1); }
  }

  function NextSentenceEnd(answer: string, from: nat): (r: nat)
    requires from <= |answer|
    ensures from <= r <= |answer|
    decreases |answer| - from
  {
    if from == |answer| || IsSentenceEnd(answer[from]) then from
    else NextSentenceEnd(answer, from + 1)
  }

  /** The least first occurrence over a list of patterns. */
  function EarliestOf(s: string, pats: seq<string>): (r: Option<nat>)
    ensures r.Some? ==> r.value <= |s|
  {
    if pats == [] then None
    else
      match (Find(s, pats[0], 0), EarliestOf(s, pats[1..]))
      case (None, rest) => rest
      case (Some(i), None) => Some(i)
      case (Some(i), Some(j)) => Some(if i <= j then i else j)
  }

  /** It is a sentence end unless it is the end, and there is none in between. */
  lemma {:induction false} NearestSentenceEnd(answer: string, from: nat)
    requires from <= |answer|
    ensures var r := NextSentenceEnd(answer, from);
      && (r < |answer| ==> answer[r] in "。！？!?；;\n")
      && forall j :: from <= j < r ==> answer[j] !in "。！？!?；;\n"
    decreases |answer| - from
  {
    if from < |answer| && !IsSentenceEnd(answer[from]) { NearestSentenceEnd(answer, from + 1); }
  }

  ghost predicate StartsAny(s: string, pats: seq<string>, i: nat) {
    exists k :: 0 <= k < |pats| && OccursAt(s, pats[k], i)
  }

  /** Some pattern starts at the offset found and none before it; none is found iff none occurs. */
  lemma {:induction false} EarliestMeans(s: string, pats: seq<string>)
    ensures match EarliestOf(s, pats)
      case None => forall i: nat :: !StartsAny(s, pats, i)
      case Some(r) => StartsAny(s, pats, r) && forall i: nat :: i < r ==> !StartsAny(s, pats, i)
    decreases |pats|
  {
    hide OccursAt, Find;
    if pats != [] {
      EarliestMeans(s, pats[1..]);
      FindMeans(s, pats[0], 0);
      hide EarliestOf;
      forall i: nat ensures StartsAny(s, pats, i) <==> OccursAt(s, pats[0], i) || StartsAny(s, pats[1..], i) {
        StartsHeadOrTail(s, pats, i);
      }
      EarliestStep(s, pats);
    }
  }

  lemma StartsHeadOrTail(s: string, pats: seq<string>, i: nat)
    requires pats != []
    ensures StartsAny(s, pats, i) <==> OccursAt(s, pats[0], i) || StartsAny(s, pats[1..], i)
  {
    hide OccursAt;
    if k :| 0 <= k < |pats| && OccursAt(s, pats[k], i) {
      if k > 0 { assert pats[1..][k - 1] == pats[k]; }
    }
    if k :| 0 <= k < |pats[1..]| && OccursAt(s, pats[1..][k], i) {
      assert pats[k + 1] == pats[1..][k];
    }
  }

  lemma EarliestStep(s: string, pats: seq<string>)
    requires pats != []
    ensures var head, tail := Find(s, pats[0], 0), EarliestOf(s, pats[1..]);
      EarliestOf(s, pats) ==
      if head.None? then tail else if tail.None? || head.value <= tail.value then head else tail
  {
    hide Find;
  }

  /** A clause without its markers, and without the commas it begins with. */
  function ClauseText(value: string): string {
    TrimStartWhile(RemoveSourceMarkers(value), c => IsWhitespace(c) || c in "，,：:、")
  }

  predicate HasExplicitSubjectBeforeLegalPredicate(lex: Lexicon, value: string) {
    var clause := ClauseText(value);
    match EarliestOf(clause, lex.predicates)
    case None => false
    case Some(index) =>
      var subject := Trim(clause[..index]);
      index != 0 && 1 <= |subject| <= 24 && AnyChar(subject, lex.alnum)
  }

  /** The text up to `i` is a subject: 1 to 24 characters, one of them alphanumeric, in front of the first predicate. */
  ghost predicate IsSubjectOf(lex: Lexicon, clause: string, i: nat) {
    && 0 < i <= |clause| && StartsAny(clause, lex.predicates, i)
    && (forall j: nat :: j < i ==> !StartsAny(clause, lex.predicates, j))
    && 1 <= |Trim(clause[..i])| <= 24 && AnyChar(Trim(clause[..i]), lex.alnum)
  }

  /**
   A clause has an explicit subject iff, markers and leading commas aside, its
   first legal predicate follows a text of 1 to 24 characters with an alphanumeric one.
   */
  lemma ExplicitSubjectMeans(lex: Lexicon, value: string)
    ensures HasExplicitSubjectBeforeLegalPredicate(lex, value) <==>
      exists i: nat :: IsSubjectOf(lex, ClauseText(value), i)
  {
    var clause := ClauseText(value);
    EarliestMeans(clause, lex.predicates);
    hide StartsAny, EarliestOf, Trim, ClauseText, AnyChar;
    var found := EarliestOf(clause, lex.predicates);
    if HasExplicitSubjectBeforeLegalPredicate(lex, value) {
      assert IsSubjectOf(lex, clause, found.value);
    }
    if i: nat :| IsSubjectOf(lex, clause, i) {
      assert found == Some(i);
    }
  }

  predicate ShouldSplitAtLegalConnector(lex: Lexicon, answer: string, start: nat, at: nat, end: nat)
    requires start <= at <= end <= |answer|
  {
    && start < at
    && LooksLikeLegalAnswer(lex, answer[start..at])
    && HasExplicitSubjectBeforeLegalPredicate(lex, answer[end..NextSegmentDelimiter(answer, end)])
  }

  predicate LooksLikeDependentCondition(lex: Lexicon, value: string) {
    var compact := Trim(TrimStartWhile(Trim(RemoveSourceMarkers(value)), c => c in "-*•· "));
    && !ContainsAny(compact, lex.modals)
    && (|| StartsWithAny(compact, lex.conditions)
        || ContainsAny(compact, lex.conditions)
        || (compact != [] && compact[|compact| - 1] in "的时后")
        || EndsWith(compact, "情况下"))
  }

  predicate LooksLikeShortBulletLabel(lex: Lexicon, value: string) {
    var trimmed := Trim(RemoveSourceMarkers(value));
    && StartsWithAny(trimmed, ["- ", "* ", "• "])
    && var name := Trim(TrimStartWhile(trimmed, c => c in "-*•· "));
    |name| <= 12 && !ContainsAny(name, lex.modals)
  }

  predicate ShouldSplitAtClauseListDelimiter(lex: Lexicon, answer: string, start: nat, at: nat)
    requires start <= at < |answer|
  {
    var left := answer[start..at];
    && start < at
    && !(answer[at] in ",，" && DelimiterIsBetweenAsciiDigits(answer, at))
    && LooksLikeLegalAnswer(lex, left)
    && ContainsLegalPredicate(lex, RemoveSourceMarkers(left))
    && !LooksLikeDependentCondition(lex, left)
    && !LooksLikeShortBulletLabel(lex, left)
    && HasExplicitSubjectBeforeLegalPredicate(lex, answer[at + 1..NextSentenceEnd(answer, at + 1)])
  }
}
