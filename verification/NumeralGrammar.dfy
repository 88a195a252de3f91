/** Which Chinese numerals the parser of article numbers reads, and as what: a grammar without a reader. */
module NumeralGrammar {
  import opened Wrappers
  import opened Text
  import opened ArticleNumbers

  // ----- the grammar -----

  predicate IsZero(c: char) {
    c in "零〇"
  }

  /** Digits of which no two other than zeros stand together. */
  ghost predicate IsRun(run: string) {
    && (forall i :: 0 <= i < |run| ==> IsChineseDigit(run[i]))
    && forall i :: 0 < i < |run| ==> IsZero(run[i - 1]) || IsZero(run[i])
  }

  /** The digit a run leaves in front of what follows it: its last one, unless that is a zero. */
  function Held(run: string): Option<nat> {
    if run == [] || IsZero(run[|run| - 1]) then None else ChineseDigit(run[|run| - 1])
  }

  function UnitValue(c: char): nat {
    if ChineseUnit(c).Some? then ChineseUnit(c).value else 0
  }

  /** A run of digits and the unit behind it; the unit counts the digit held, or one. */
  datatype Group = Group(run: string, unit: char) {
    function Value(): nat {
      (if Held(run).Some? then Held(run).value else 1) * UnitValue(unit)
    }
  }

  /** Groups, and a last run that counts its digit itself. */
  function Spelled(groups: seq<Group>, last: string): string {
    if groups == [] then last else groups[0].run + [groups[0].unit] + Spelled(groups[1..], last)
  }

  function Sum(groups: seq<Group>, last: string): nat {
    if groups == [] then if Held(last).Some? then Held(last).value else 0
    else groups[0].Value() + Sum(groups[1..], last)
  }

  /** The units decrease strictly, the first of them below a bound. */
  predicate Decrease(groups: seq<Group>, below: nat) {
    groups != [] ==> 0 < UnitValue(groups[0].unit) < below && Decrease(groups[1..], UnitValue(groups[0].unit))
  }

  ghost predicate AreGroups(value: string, groups: seq<Group>, last: string, below: nat) {
    && value == Spelled(groups, last) && Decrease(groups, below)
    && IsRun(last) && forall g :: g in groups ==> IsRun(g.run)
  }

  ghost predicate IsUnitNumeral(value: string, v: nat) {
    exists groups, last :: AreGroups(value, groups, last, 10_000) && groups != [] && v == Sum(groups, last)
  }

  predicate AreDigits(value: string, digit: char -> Option<nat>) {
    forall i :: 0 <= i < |value| ==> digit(value[i]).Some?
  }

  /** The number a row of digits denotes in base ten. */
  function BaseTen(value: string, digit: char -> Option<nat>): nat {
    if value == [] then 0
    else
      var d := digit(value[|value| - 1]);
      10 * BaseTen(value[..|value| - 1], digit) + if d.Some? then d.value else 0
  }

  predicate IsRow(value: string, digit: char -> Option<nat>, v: nat) {
    value != [] && AreDigits(value, digit) && v == BaseTen(value, digit) <= U32_MAX
  }

  ghost predicate IsNumeral(value: string, v: nat) {
    IsRow(value, ChineseDigit, v) || IsUnitNumeral(value, v)
  }

  /** A number of ten thousands, and the rest below them if there is one. */
  ghost predicate IsLongNumeralOf(value: string, v: nat, first: string, second: string, upper: nat, lower: nat) {
    && value == first + "万" + second && IsNumeral(first, upper)
    && (if second == "" then lower == 0 else IsNumeral(second, lower))
    && v == upper * 10_000 + lower <= U32_MAX
  }

  ghost predicate IsLongNumeral(value: string, v: nat) {
    exists first, second, upper, lower :: IsLongNumeralOf(value, v, first, second, upper, lower)
  }

  // ----- digits and units -----

  /** The digits and units in use; 〇 is another zero and 两 another two. */
  lemma DigitsAndUnits(c: char, d: nat)
    ensures ChineseDigit(c) == Some(d) <==> (d < 10 && c == DIGITS[d]) || (c == '〇' && d == 0) || (c == '两' && d == 2)
    ensures ChineseUnit(c) == Some(d) <==> (c == '十' && d == 10) || (c == '百' && d == 100) || (c == '千' && d == 1000)
    ensures IsZero(c) <==> ChineseDigit(c) == Some(0)
  {
    if d < 5 {
      if d == 0 {} else if d == 1 {} else if d == 2 {} else if d == 3 {} else {}
    } else if d < 10 {
      if d == 5 {} else if d == 6 {} else if d == 7 {} else if d == 8 {} else {}
    }
  }

  lemma CharKinds(c: char)
    ensures IsZero(c) <==> ChineseDigit(c) == Some(0)
    ensures ChineseDigit(c).Some? ==> ChineseDigit(c).value < 10 && ChineseUnit(c).None?
    ensures ChineseUnit(c).Some? <==> UnitValue(c) > 0
    ensures ChineseUnit(c).Some? ==> UnitValue(c) in {10, 100, 1000}
    ensures c == '万' ==> ChineseDigit(c).None? && ChineseUnit(c).None?
  {
  }

  lemma HeldIsDigit(run: string)
    ensures Held(run).Some? ==> 0 < Held(run).value < 10
    ensures Held(run).Some? ==> run != [] && !IsZero(run[|run| - 1])
  {
    if run != [] { CharKinds(run[|run| - 1]); }
    hide ChineseDigit;
  }

  // ----- reading with units -----

  lemma RunDigit(run: string, i: nat)
    requires IsRun(run) && i < |run|
    ensures IsChineseDigit(run[i])
  {
  }

  /** The run a spelling begins with holds all the digits the text begins with. */
  lemma FirstRun(value: string, w: string, rest: string, groups: seq<Group>, last: string, below: nat)
    requires AreGroups(value, groups, last, below) && value == w + rest && IsRun(w)
    ensures var run := if groups == [] then last else groups[0].run;
      if rest == [] then groups == [] && last == w
      else if ChineseUnit(rest[0]).Some? then
        groups != [] && groups[0] == Group(w, rest[0]) && Spelled(groups[1..], last) == rest[1..]
      else
        && IsRun(run) && |run| > |w| && run[|w|] == rest[0] && IsChineseDigit(rest[0])
        && (w != [] ==> run[|w| - 1] == w[|w| - 1])
  {
    hide IsRun, ChineseDigit, ChineseUnit, IsChineseDigit, UnitValue;
    var run := if groups == [] then last else groups[0].run;
    var n := |run|;
    assert run == value[..n];
    if groups == [] {
      assert value == run;
    } else {
      assert groups[0] in groups;
      UnitIsNoDigit(groups[0].unit, below);
      assert value[n..] == [groups[0].unit] + Spelled(groups[1..], last);
      assert value[n] == groups[0].unit;
      if n < |w| {
        RunDigit(w, n);
        assert false;
      }
      assert n == |w| ==> rest == value[n..];
    }
    if n > |w| {
      RunDigit(run, |w|);
      assert run[|w|] == value[|w|] == rest[0];
      DigitIsNoUnit(rest[0]);
    }
  }

  lemma UnitIsNoDigit(c: char, below: nat)
    ensures 0 < UnitValue(c) ==> !IsChineseDigit(c) && ChineseUnit(c).Some?
  {
  }

  lemma DigitIsNoUnit(c: char)
    ensures IsChineseDigit(c) ==> ChineseUnit(c).None?
  {
  }

  /** Totals small enough for what may still follow below a unit. */
  predicate IsBounded(total: nat, below: nat) {
    below in {10, 100, 1_000, 10_000} && total + 10 * below <= 100_000
  }

  /** The text has a spelling with units below a bound that adds up to the missing part of `v`. */
  ghost predicate Completes(value: string, below: nat, saw: bool, total: nat, v: nat) {
    exists groups, last :: (&& AreGroups(value, groups, last, below) && (saw || groups != [])
                            && v == total + Sum(groups, last))
  }

  /** The reader's state between two characters, having read a run since the last unit. */
  lemma {:induction false} ReadingIsExact(
    value: string, w: string, rest: string, total: nat, below: nat, saw: bool, v: nat)
    requires value == w + rest && IsRun(w) && IsBounded(total, below)
    ensures WithUnits(rest, total, Held(w), below, saw) == Some(v) <==> Completes(value, below, saw, total, v)
    decreases |rest|
  {
    hide Completes, Held, IsRun, ChineseDigit, ChineseUnit, WithUnits, IsBounded;
    if rest == [] {
      EndIsExact(value, w, total, below, saw, v);
    } else if ChineseDigit(rest[0]).Some? {
      var longer, tail := w + [rest[0]], rest[1..];
      assert value == longer + tail;
      DigitStep(w, rest, total, below, saw);
      if Held(w).None? || IsZero(rest[0]) {
        ReadingIsExact(value, longer, tail, total, below, saw, v);
      } else {
        TwoDigitsAreNoRun(value, w, rest, below, saw, total, v);
      }
    } else {
      UnitStep(w, rest, total, below, saw);
      if 0 < UnitValue(rest[0]) < below {
        var more := total + Group(w, rest[0]).Value();
        NothingHeld();
        assert "" + rest[1..] == rest[1..];
        ReadingIsExact(rest[1..], "", rest[1..], more, UnitValue(rest[0]), true, v);
        UnitIsExact(value, w, rest, total, below, saw, v);
      } else {
        NoOtherUnit(value, w, rest, below, saw, total, v);
      }
    }
  }

  lemma NothingHeld()
    ensures IsRun("") && Held("") == None
  {
  }

  lemma EndIsExact(value: string, w: string, total: nat, below: nat, saw: bool, v: nat)
    requires value == w + [] && IsRun(w) && IsBounded(total, below)
    ensures WithUnits("", total, Held(w), below, saw) == Some(v) <==> Completes(value, below, saw, total, v)
  {
    HeldIsDigit(w);
    hide IsRun, ChineseDigit, ChineseUnit, Held;
    assert saw ==> AreGroups(value, [], w, below);
    forall groups, last | AreGroups(value, groups, last, below) ensures groups == [] && last == w {
      FirstRun(value, w, "", groups, last, below);
    }
  }

  /** A digit joins the run, unless one is held already. */
  lemma DigitStep(w: string, rest: string, total: nat, below: nat, saw: bool)
    requires IsRun(w) && rest != [] && ChineseDigit(rest[0]).Some?
    ensures WithUnits(rest, total, Held(w), below, saw) ==
      if Held(w).None? || IsZero(rest[0]) then WithUnits(rest[1..], total, Held(w + [rest[0]]), below, saw) else None
    ensures Held(w).None? || IsZero(rest[0]) ==> IsRun(w + [rest[0]])
  {
    CharKinds(rest[0]);
    if w != [] { CharKinds(w[|w| - 1]); }
    hide ChineseDigit, ChineseUnit;
  }

  lemma TwoDigitsAreNoRun(value: string, w: string, rest: string, below: nat, saw: bool, total: nat, v: nat)
    requires value == w + rest && IsRun(w) && rest != [] && ChineseDigit(rest[0]).Some?
    requires Held(w).Some? && !IsZero(rest[0])
    ensures !Completes(value, below, saw, total, v)
  {
    CharKinds(rest[0]);
    HeldIsDigit(w);
    hide ChineseDigit, ChineseUnit, Held;
    if groups: seq<Group>, last: string :| AreGroups(value, groups, last, below) {
      FirstRun(value, w, rest, groups, last, below);
    }
  }

  lemma UnitStep(w: string, rest: string, total: nat, below: nat, saw: bool)
    requires IsRun(w) && rest != [] && ChineseDigit(rest[0]).None? && IsBounded(total, below)
    ensures var more := total + Group(w, rest[0]).Value();
      if 0 < UnitValue(rest[0]) < below then
        IsBounded(more, UnitValue(rest[0]))
        && WithUnits(rest, total, Held(w), below, saw) == WithUnits(rest[1..], more, None, UnitValue(rest[0]), true)
      else WithUnits(rest, total, Held(w), below, saw) == None
  {
    CharKinds(rest[0]);
    HeldIsDigit(w);
    hide ChineseDigit, ChineseUnit, Held, IsRun;
  }

  /** Spellings that begin with a run and a unit are the spellings of what follows, with both in front. */
  lemma UnitIsExact(value: string, w: string, rest: string, total: nat, below: nat, saw: bool, v: nat)
    requires value == w + rest && IsRun(w) && rest != [] && 0 < UnitValue(rest[0]) < below
    ensures Completes(value, below, saw, total, v) <==>
      Completes(rest[1..], UnitValue(rest[0]), true, total + Group(w, rest[0]).Value(), v)
  {
    hide ChineseDigit, ChineseUnit, Held, IsRun;
    var first, tail, unit := Group(w, rest[0]), rest[1..], UnitValue(rest[0]);
    if groups: seq<Group>, last: string :|
      AreGroups(value, groups, last, below) && (saw || groups != []) && v == total + Sum(groups, last)
    {
      CharKinds(rest[0]);
      FirstRun(value, w, rest, groups, last, below);
      assert AreGroups(tail, groups[1..], last, unit) && v == total + first.Value() + Sum(groups[1..], last);
    }
    if groups: seq<Group>, last: string :|
      AreGroups(tail, groups, last, unit) && v == total + first.Value() + Sum(groups, last)
    {
      var all := [first] + groups;
      assert all[1..] == groups;
      assert value == w + [rest[0]] + tail;
      assert AreGroups(value, all, last, below) && v == total + Sum(all, last);
    }
  }

  lemma NoOtherUnit(value: string, w: string, rest: string, below: nat, saw: bool, total: nat, v: nat)
    requires value == w + rest && IsRun(w) && rest != [] && ChineseDigit(rest[0]).None?
    requires !(0 < UnitValue(rest[0]) < below)
    ensures !Completes(value, below, saw, total, v)
  {
    CharKinds(rest[0]);
    hide ChineseDigit, ChineseUnit, Held, IsRun;
    if groups: seq<Group>, last: string :| AreGroups(value, groups, last, below) {
      FirstRun(value, w, rest, groups, last, below);
    }
  }

  // ----- the parser -----

  lemma {:induction false} PositionalIsExact(value: string, acc: nat, digit: char -> Option<nat>, v: nat)
    requires AreDigits(value, digit) && acc <= U32_MAX
    ensures Positional(value, acc, digit) == Some(v) <==> v == acc * Power(|value|) + BaseTen(value, digit) <= U32_MAX
    decreases |value|
  {
    if value == [] {
      assert Power(0) == 1;
    } else {
      var d, rest := digit(value[0]).value, value[1..];
      BaseTenFront(value, digit);
      if acc * 10 + d <= U32_MAX { PositionalIsExact(rest, acc * 10 + d, digit, v); }
      ShiftPower(acc, d, |rest|, BaseTen(rest, digit));
    }
  }

  function Power(n: nat): nat {
    if n == 0 then 1 else 10 * Power(n - 1)
  }

  lemma ShiftPower(acc: nat, d: nat, n: nat, low: nat)
    ensures (acc * 10 + d) * Power(n) + low == acc * Power(n + 1) + d * Power(n) + low
    ensures (acc * 10 + d) * Power(n) >= acc * 10 + d
  {
    PowerIsPositive(n);
  }

  lemma {:induction false} PowerIsPositive(n: nat)
    ensures Power(n) >= 1
  {
    if n > 0 { PowerIsPositive(n - 1); }
  }

  /** The leading digit of a row counts the power of its place. */
  lemma {:induction false} BaseTenFront(value: string, digit: char -> Option<nat>)
    requires AreDigits(value, digit) && value != []
    ensures BaseTen(value, digit) == digit(value[0]).value * Power(|value| - 1) + BaseTen(value[1..], digit)
    decreases |value|
  {
    if |value| == 1 {
      assert value[..0] == [] && value[1..] == [] && Power(0) == 1;
    } else {
      var init := value[..|value| - 1];
      BaseTenFront(init, digit);
      assert value[1..][..|value| - 2] == init[1..];
    }
  }

  lemma DigitsAgree(value: string)
    ensures AreDigits(value, ChineseDigit) <==> AllChars(value, IsChineseDigit)
    ensures AreDigits(value, AsciiDigit) <==> AllChars(value, IsAsciiDigit)
  {
    hide ChineseDigit;
  }

  /** A spelling with a unit is no row of digits, and has no 万. */
  lemma UnitNumeralChars(value: string, v: nat)
    requires IsUnitNumeral(value, v)
    ensures value != [] && !AreDigits(value, ChineseDigit) && '万' !in value
  {
    hide ChineseDigit, ChineseUnit;
    var groups: seq<Group>, last: string :|
      AreGroups(value, groups, last, 10_000) && groups != [] && v == Sum(groups, last);
    SpelledChars(groups, last, 10_000);
    var n := |groups[0].run|;
    assert value[n] == groups[0].unit;
    UnitIsNoDigit(groups[0].unit, 10_000);
  }

  lemma {:induction false} SpelledChars(groups: seq<Group>, last: string, below: nat)
    requires Decrease(groups, below) && IsRun(last) && forall g :: g in groups ==> IsRun(g.run)
    ensures '万' !in Spelled(groups, last)
    decreases |groups|
  {
    hide ChineseDigit, ChineseUnit;
    CharKinds('万');
    if groups != [] {
      assert groups[0] in groups;
      SpelledChars(groups[1..], last, UnitValue(groups[0].unit));
    }
  }

  lemma NumeralHasNoMark(value: string, v: nat)
    ensures IsNumeral(value, v) ==> value != [] && '万' !in value
  {
    CharKinds('万');
    hide ChineseDigit, ChineseUnit, IsUnitNumeral;
    if IsUnitNumeral(value, v) { UnitNumeralChars(value, v); }
  }

  /** Below ten thousand the parser reads exactly the positional numerals and the numerals with units. */
  lemma NumeralIsExact(value: string, v: nat)
    ensures ParseChineseUnderTenThousand(value) == Some(v) <==> IsNumeral(value, v)
  {
    hide WithUnits, IsUnitNumeral, Held, ChineseDigit, Completes, IsRun;
    if IsUnitNumeral(value, v) { UnitNumeralChars(value, v); }
    DigitsAgree(value);
    if value != [] && AreDigits(value, ChineseDigit) {
      PositionalIsExact(value, 0, ChineseDigit, v);
    } else if value != [] {
      NothingHeld();
      assert "" + value == value;
      ReadingIsExact(value, "", value, 0, 10_000, false, v);
      CompletesAll(value, v);
    }
  }

  lemma CompletesAll(value: string, v: nat)
    ensures Completes(value, 10_000, false, 0, v) <==> IsUnitNumeral(value, v)
  {
  }

  /**
   The parser reads a text as `v` iff it is a numeral of that positive value,
   positional or with strictly decreasing units, or two of them around one 万.
   */
  lemma OrdinalIsExact(value: string, v: nat)
    ensures ParseChineseOrdinal(value) == Some(v) <==> v > 0 && (IsNumeral(value, v) || IsLongNumeral(value, v))
  {
    hide ParseChineseUnderTenThousand, IsNumeral, Find;
    NumeralHasNoMark(value, v);
    FindChar(value, '万');
    match Find(value, "万", 0) {
      case None =>
        NumeralIsExact(value, v);
        LongHasMark(value, v);
      case Some(at) =>
        LongIsExact(value, v, at);
    }
  }

  lemma LongHasMark(value: string, v: nat)
    ensures IsLongNumeral(value, v) ==> '万' in value
  {
    hide IsNumeral;
    if first, second, upper, lower :| IsLongNumeralOf(value, v, first, second, upper, lower) {
      assert value[|first|] == '万';
    }
  }

  lemma LongIsExact(value: string, v: nat, at: nat)
    requires Find(value, "万", 0) == Some(at) && at < |value|
    requires '万' !in value[..at] && value == value[..at] + "万" + value[at + 1..]
    ensures ParseChineseOrdinal(value) == Some(v) <==> v > 0 && IsLongNumeral(value, v)
  {
    hide ParseChineseUnderTenThousand, IsNumeral, Find;
    var front, back := value[..at], value[at + 1..];
    forall n: nat
      ensures ParseChineseUnderTenThousand(front) == Some(n) <==> IsNumeral(front, n)
      ensures ParseChineseUnderTenThousand(back) == Some(n) <==> IsNumeral(back, n)
    {
      NumeralIsExact(front, n);
      NumeralIsExact(back, n);
    }
    NumeralHasNoMarks(front, back);
    FindChar(back, '万');
    forall first, second, upper, lower | IsLongNumeralOf(value, v, first, second, upper, lower)
      ensures first == front && second == back
    {
      NumeralHasNoMark(first, upper);
      FirstMark(value, '万', at, first, second);
    }
    if ParseChineseOrdinal(value) == Some(v) {
      var upper := ParseChineseUnderTenThousand(front).value;
      var lower := if back == [] then 0 else ParseChineseUnderTenThousand(back).value;
      assert IsLongNumeralOf(value, v, front, back, upper, lower);
    }
  }

  lemma NumeralHasNoMarks(front: string, back: string)
    ensures forall n: nat :: IsNumeral(front, n) ==> front != []
    ensures forall n: nat :: IsNumeral(back, n) ==> back != [] && '万' !in back
  {
    hide IsNumeral;
    forall n: nat ensures IsNumeral(front, n) ==> front != [] { NumeralHasNoMark(front, n); }
    forall n: nat ensures IsNumeral(back, n) ==> back != [] && '万' !in back { NumeralHasNoMark(back, n); }
  }

  /** There is one way to cut a text at the first of its marks. */
  lemma FirstMark(value: string, mark: char, at: nat, first: string, second: string)
    requires value == first + [mark] + second && mark !in first
    requires at < |value| && value[at] == mark && mark !in value[..at]
    ensures first == value[..at] && second == value[at + 1..]
  {
    assert value[|first|] == mark;
    assert forall k :: 0 <= k < |first| ==> value[k] == first[k] && first[k] != mark;
    assert forall k :: 0 <= k < at ==> value[k] == value[..at][k] && value[..at][k] != mark;
    assert |first| == at;
  }

  // ----- article numbers -----

  /** The text of an ordinal: a decimal number or a Chinese numeral, up to 99999. */
  ghost predicate IsOrdinalText(text: string, v: nat) {
    && text != [] && 1 <= v <= 99_999
    && (IsRow(text, AsciiDigit, v) || IsNumeral(text, v) || IsLongNumeral(text, v))
  }

  /** An ordinal with or without 第 in front and 条 behind, within whitespace. */
  ghost predicate IsComponent(text: string, v: nat) {
    exists lead, ordinal, tail :: IsComponentOf(text, v, lead, ordinal, tail)
  }

  ghost predicate IsComponentOf(text: string, v: nat, lead: string, ordinal: string, tail: string) {
    lead in ["", "第"] && tail in ["", "条"] && Trim(text) == lead + ordinal + tail && IsOrdinalText(ordinal, v)
  }

  /** The characters an ordinal can be written with. */
  predicate IsOrdinalChar(c: char) {
    IsAsciiDigit(c) || IsChineseDigit(c) || ChineseUnit(c).Some? || c == '万'
  }

  lemma OrdinalChars(text: string, v: nat)
    requires IsOrdinalText(text, v)
    ensures AllChars(text, IsOrdinalChar)
  {
    hide ChineseDigit, ChineseUnit, IsUnitNumeral;
    if IsNumeral(text, v) {
      NumeralChars(text, v);
    } else if IsLongNumeral(text, v) {
      var first, second, upper, lower :| IsLongNumeralOf(text, v, first, second, upper, lower);
      NumeralChars(first, upper);
      if second != "" { NumeralChars(second, lower); }
    }
  }

  lemma NumeralChars(text: string, v: nat)
    requires IsNumeral(text, v)
    ensures AllChars(text, IsOrdinalChar)
  {
    hide ChineseDigit, ChineseUnit;
    if IsUnitNumeral(text, v) {
      var groups: seq<Group>, last: string :|
        AreGroups(text, groups, last, 10_000) && groups != [] && v == Sum(groups, last);
      SpelledOrdinalChars(groups, last, 10_000);
    }
  }

  lemma {:induction false} SpelledOrdinalChars(groups: seq<Group>, last: string, below: nat)
    requires Decrease(groups, below) && IsRun(last) && forall g :: g in groups ==> IsRun(g.run)
    ensures AllChars(Spelled(groups, last), IsOrdinalChar)
    decreases |groups|
  {
    hide ChineseDigit, ChineseUnit;
    if groups != [] {
      assert groups[0] in groups;
      SpelledOrdinalChars(groups[1..], last, UnitValue(groups[0].unit));
    }
  }

  lemma OrdinalCharMeans(c: char)
    ensures IsOrdinalChar(c) ==> !IsWhitespace(c) && c !in "第条之"
    ensures IsAsciiDigit(c) ==> !IsChineseDigit(c) && ChineseUnit(c).None? && c != '万'
  {
  }

  /** A decimal number is no Chinese numeral. */
  lemma DecimalIsNoNumeral(text: string, v: nat)
    requires text != [] && AllChars(text, IsAsciiDigit)
    ensures !IsNumeral(text, v) && !IsLongNumeral(text, v)
  {
    hide ChineseDigit, ChineseUnit, IsUnitNumeral;
    OrdinalCharMeans(text[0]);
    if IsUnitNumeral(text, v) { UnitNumeralStarts(text, v); }
    LongHasMark(text, v);
    forall i | 0 <= i < |text| ensures text[i] != '万' { OrdinalCharMeans(text[i]); }
  }

  lemma UnitNumeralStarts(text: string, v: nat)
    requires IsUnitNumeral(text, v)
    ensures text != [] && (IsChineseDigit(text[0]) || ChineseUnit(text[0]).Some?)
  {
    hide ChineseDigit, ChineseUnit;
    var groups: seq<Group>, last: string :|
      AreGroups(text, groups, last, 10_000) && groups != [] && v == Sum(groups, last);
    assert groups[0] in groups;
    var run := groups[0].run;
    if run == [] {
      assert text[0] == groups[0].unit;
    } else {
      assert text[0] == run[0];
      RunDigit(run, 0);
    }
  }

  lemma NumeralTextIsExact(text: string, v: nat)
    ensures text != [] && ParseNumeral(text) == Some(v) <==> IsOrdinalText(text, v)
  {
    hide Positional, ParseChineseOrdinal, IsNumeral, IsLongNumeral, BaseTen;
    if text != [] {
      DigitsAgree(text);
      if AllChars(text, IsAsciiDigit) {
        PositionalIsExact(text, 0, AsciiDigit, v);
        DecimalIsNoNumeral(text, v);
      } else {
        OrdinalIsExact(text, v);
      }
    }
  }

  /** A trimmed text without one 第 in front and one 条 behind. */
  function Bare(trimmed: string): string {
    var unprefixed := if StartsWith(trimmed, "第") then trimmed[1..] else trimmed;
    if EndsWith(unprefixed, "条") then unprefixed[..|unprefixed| - 1] else unprefixed
  }

  lemma BareIsStripped(trimmed: string) returns (lead: string, tail: string)
    ensures lead in ["", "第"] && tail in ["", "条"] && trimmed == lead + Bare(trimmed) + tail
  {
    lead := if StartsWith(trimmed, "第") then "第" else "";
    var unprefixed := trimmed[|lead|..];
    assert trimmed == lead + unprefixed;
    tail := if EndsWith(unprefixed, "条") then "条" else "";
    assert unprefixed == unprefixed[..|unprefixed| - |tail|] + tail;
    assert Bare(trimmed) == unprefixed[..|unprefixed| - |tail|];
    Sandwich(trimmed, lead, unprefixed, Bare(trimmed), tail);
  }

  lemma Sandwich(text: string, lead: string, rest: string, middle: string, tail: string)
    requires text == lead + rest && rest == middle + tail
    ensures text == lead + middle + tail
  {
  }

  lemma ComponentIsExact(text: string, v: nat)
    ensures ParseOrdinalComponent(text) == Some(v) <==> IsComponent(text, v)
  {
    hide Trim, ParseNumeral, IsOrdinalText, AnyChar;
    var trimmed := Trim(text);
    var ordinal := Bare(trimmed);
    assert ParseOrdinalComponent(text) ==
      if ordinal == [] || AnyChar(ordinal, IsWhitespace) then None else ParseNumeral(ordinal);
    hide ParseOrdinalComponent, Bare;
    NumeralTextIsExact(ordinal, v);
    var lead, tail := BareIsStripped(trimmed);
    if IsOrdinalText(ordinal, v) {
      NoSpaces(ordinal, v);
      assert IsComponentOf(text, v, lead, ordinal, tail);
    }
    if a, o, z :| IsComponentOf(text, v, a, o, z) {
      OneWayToStrip(trimmed, a, o, z, v);
    }
  }

  lemma NoSpaces(ordinal: string, v: nat)
    requires IsOrdinalText(ordinal, v)
    ensures ordinal != [] && !AnyChar(ordinal, IsWhitespace) && '之' !in ordinal
    ensures ordinal[0] != '第' && ordinal[|ordinal| - 1] != '条'
  {
    hide IsNumeral, IsLongNumeral, IsRow;
    OrdinalChars(ordinal, v);
    hide IsOrdinalChar, IsWhitespace, IsOrdinalText;
    forall i | 0 <= i < |ordinal| ensures !IsWhitespace(ordinal[i]) && ordinal[i] !in "第条之" {
      OrdinalCharMeans(ordinal[i]);
    }
  }

  /** Stripping 第 and 条 wherever they stand is the only way to find an ordinal between them. */
  lemma OneWayToStrip(trimmed: string, lead: string, ordinal: string, tail: string, v: nat)
    requires lead in ["", "第"] && tail in ["", "条"] && trimmed == lead + ordinal + tail && IsOrdinalText(ordinal, v)
    ensures Bare(trimmed) == ordinal
  {
    hide IsOrdinalText;
    NoSpaces(ordinal, v);
    var rest := ordinal + tail;
    assert trimmed == lead + rest;
    assert lead == "" ==> trimmed[0] == ordinal[0];
    assert StartsWith(trimmed, "第") <==> lead == "第";
    assert rest == if StartsWith(trimmed, "第") then trimmed[1..] else trimmed;
    assert tail == "" ==> rest[|rest| - 1..] == [ordinal[|ordinal| - 1]];
    assert tail == "条" ==> rest[|rest| - 1..] == "条";
  }

  /** An article number: an ordinal, or one ending in 条, 之 and a sub-article. */
  ghost predicate IsSpelling(text: string, n: ParsedArticleNumber) {
    match n.subarticle
    case None => IsComponent(text, n.base)
    case Some(s) =>
      exists front, back :: (&& Trim(text) == front + "之" + back && '之' !in front && '之' !in back
                             && EndsWith(front, "条") && IsComponent(front, n.base) && IsComponent(back, s))
  }

  lemma ComponentHasNoMark(text: string, v: nat)
    requires IsComponent(text, v)
    ensures '之' !in Trim(text)
  {
    hide IsOrdinalText, Trim;
    var lead, ordinal, tail :| IsComponentOf(text, v, lead, ordinal, tail);
    NoSpaces(ordinal, v);
  }

  lemma ComponentOfTrimmed(text: string, v: nat)
    ensures IsComponent(Trim(text), v) <==> IsComponent(text, v)
  {
    TrimTwice(text);
    hide Trim, IsOrdinalText;
    if lead, ordinal, tail :| IsComponentOf(text, v, lead, ordinal, tail) {
      assert IsComponentOf(Trim(text), v, lead, ordinal, tail);
    }
    if lead, ordinal, tail :| IsComponentOf(Trim(text), v, lead, ordinal, tail) {
      assert IsComponentOf(text, v, lead, ordinal, tail);
    }
  }

  /** Which texts are article numbers, and which: the parser accepts exactly their spellings. */
  lemma ArticleNumberIsExact(text: string, n: ParsedArticleNumber)
    ensures ParseArticleNumber(text) == Some(n) <==> IsSpelling(text, n)
  {
    hide ParseOrdinalComponent, IsComponent, Trim, Find, EndsWith;
    var trimmed := Trim(text);
    FindChar(trimmed, '之');
    match Find(trimmed, "之", 0) {
      case None =>
        forall v: nat ensures ParseOrdinalComponent(trimmed) == Some(v) <==> IsComponent(text, v) {
          ComponentIsExact(trimmed, v);
          ComponentOfTrimmed(text, v);
        }
      case Some(at) =>
        assert trimmed[at] == '之';
        forall v: nat ensures !IsComponent(text, v) {
          if IsComponent(text, v) { ComponentHasNoMark(text, v); }
        }
        SubarticleIsExact(text, n, at);
    }
  }

  lemma SubarticleIsExact(text: string, n: ParsedArticleNumber, at: nat)
    requires Find(Trim(text), "之", 0) == Some(at) && at < |Trim(text)| && '之' !in Trim(text)[..at]
    requires Trim(text) == Trim(text)[..at] + "之" + Trim(text)[at + 1..]
    requires n.subarticle.None? ==> !IsComponent(text, n.base)
    ensures ParseArticleNumber(text) == Some(n) <==> IsSpelling(text, n)
  {
    hide ParseOrdinalComponent, IsComponent, Trim, Find, EndsWith;
    var trimmed := Trim(text);
    var base, sub := trimmed[..at], trimmed[at + 1..];
    FindChar(sub, '之');
    forall v: nat
      ensures ParseOrdinalComponent(base) == Some(v) <==> IsComponent(base, v)
      ensures ParseOrdinalComponent(sub) == Some(v) <==> IsComponent(sub, v)
    {
      ComponentIsExact(base, v);
      ComponentIsExact(sub, v);
    }
    forall front: string, back: string | trimmed == front + "之" + back && '之' !in front
      ensures front == base && back == sub
    {
      assert trimmed[at] == '之';
      FirstMark(trimmed, '之', at, front, back);
    }
  }

  /** A digit in front of a zero is dropped: with any digit, five say, 五〇十 is read as ten. */
  lemma DigitBeforeZeroIsDropped(d: nat)
    requires 1 <= d < 10
    ensures ParseChineseOrdinal([DIGITS[d]] + "〇十") == Some(10)
  {
    var value, run := [DIGITS[d]] + "〇十", [DIGITS[d]] + "〇";
    DigitsAndUnits(DIGITS[d], d);
    DigitsAndUnits('〇', 0);
    DigitsAndUnits('十', 10);
    hide ChineseDigit, ChineseUnit;
    var groups := [Group(run, '十')];
    assert value == run + ['十'] + "" && groups[1..] == [] && Spelled([], "") == "";
    assert Spelled(groups, "") == value && Decrease(groups, 10_000);
    assert IsRun(run) && IsRun("") && Held(run) == None;
    assert AreGroups(value, groups, "", 10_000);
    assert Sum(groups, "") == 10;
    assert IsUnitNumeral(value, 10);
    OrdinalIsExact(value, 10);
  }
}
