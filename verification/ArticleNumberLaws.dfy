/**
 Article numbers have true normal forms: what is written is read back, and two
 spellings are equivalent exactly when they normalise to the same string.
 */
module ArticleNumberLaws {
  import opened Wrappers
  import opened Text
  import opened ArticleNumbers

  predicate IsOrdinal(n: nat) {
    1 <= n <= MAX_ARTICLE_ORDINAL
  }

  predicate IsArticleNumber(n: ParsedArticleNumber) {
    IsOrdinal(n.base) && (n.subarticle.Some? ==> IsOrdinal(n.subarticle.value))
  }

  // ----- Chinese numerals are read back -----

  lemma DigitSplit(value: nat, p: nat)
    requires p < 5
    ensures value % (10 * POWERS[p]) == ((value / POWERS[p]) % 10) * POWERS[p] + value % POWERS[p]
  {
    if p == 0 {
    } else if p == 1 {
    } else if p == 2 {
    } else if p == 3 {
    } else {
    }
  }

  lemma DigitIsRead(d: nat)
    requires d < 10
    ensures ChineseDigit(DIGITS[d]) == Some(d)
    ensures DIGITS[d] !in "十百千万第条之" && !IsWhitespace(DIGITS[d]) && !IsAsciiDigit(DIGITS[d])
  {
    if d < 5 {
      if d == 0 {} else if d == 1 {} else if d == 2 {} else if d == 3 {} else {}
    } else {
      if d == 5 {} else if d == 6 {} else if d == 7 {} else if d == 8 {} else {}
    }
  }

  lemma UnitIsRead(p: nat)
    requires 1 <= p < 4
    ensures UNITS[p] == [UNITS[p][0]] && ChineseUnit(UNITS[p][0]) == Some(POWERS[p])
      && ChineseDigit(UNITS[p][0]) == None
    ensures UNITS[p][0] !in "万第条之" && !IsWhitespace(UNITS[p][0]) && !IsAsciiDigit(UNITS[p][0])
  {
    if p == 1 {} else if p == 2 {} else {}
  }

  /** Reading a zero, a digit, and a unit off the front. */
  lemma ReadZero(rest: string, total: nat, previousUnit: nat, saw: bool)
    ensures WithUnits([DIGITS[0]] + rest, total, None, previousUnit, saw) ==
      WithUnits(rest, total, None, previousUnit, saw)
  {
    assert ([DIGITS[0]] + rest)[1..] == rest;
  }

  lemma ReadDigit(d: nat, rest: string, total: nat, previousUnit: nat, saw: bool)
    requires 1 <= d < 10
    ensures WithUnits([DIGITS[d]] + rest, total, None, previousUnit, saw) ==
      WithUnits(rest, total, Some(d), previousUnit, saw)
  {
    DigitIsRead(d);
    hide ChineseDigit, ChineseUnit;
    assert ([DIGITS[d]] + rest)[1..] == rest;
  }

  lemma ReadUnit(p: nat, rest: string, total: nat, pending: Option<nat>, previousUnit: nat, saw: bool)
    requires 1 <= p < 4 && POWERS[p] < previousUnit
    requires total + (if pending.Some? then pending.value else 1) * POWERS[p] <= U32_MAX
    ensures WithUnits(UNITS[p] + rest, total, pending, previousUnit, saw)
         == WithUnits(rest, total + (if pending.Some? then pending.value else 1) * POWERS[p], None, POWERS[p], true)
  {
    UnitIsRead(p);
    hide ChineseDigit, ChineseUnit;
    assert (UNITS[p] + rest)[1..] == rest;
  }

  /** One written position, read with units. */
  lemma ReadPosition(
    digit: nat, p: nat, started: bool, zeroPending: bool, rest: string, total: nat, previousUnit: nat, saw: bool)
    requires 1 <= digit < 10 && p < 4 && POWERS[p] < previousUnit && total <= U32_MAX - 10_000
    ensures WithUnits(WritePosition(digit, p, started, zeroPending) + rest, total, None, previousUnit, saw) ==
      if p == 0 then WithUnits(rest, total, Some(digit), previousUnit, saw)
      else WithUnits(rest, total + digit * POWERS[p], None, POWERS[p], true)
  {
    hide WithUnits;
    var shown := !(digit == 1 && p == 1 && !started);
    var afterZero := (if shown then [DIGITS[digit]] else "") + UNITS[p] + rest;
    if zeroPending {
      assert WritePosition(digit, p, started, zeroPending) + rest == [DIGITS[0]] + afterZero;
      ReadZero(afterZero, total, previousUnit, saw);
    } else {
      assert WritePosition(digit, p, started, zeroPending) + rest == afterZero;
    }
    if shown {
      assert afterZero == [DIGITS[digit]] + (UNITS[p] + rest);
      ReadDigit(digit, UNITS[p] + rest, total, previousUnit, saw);
    } else {
      assert afterZero == UNITS[p] + rest;
    }
    if p == 0 {
      assert UNITS[p] + rest == rest;
    } else {
      ReadUnit(p, rest, total, if shown then Some(digit) else None, previousUnit, saw);
    }
  }

  lemma ReadEnd(total: nat, pending: Option<nat>, previousUnit: nat)
    requires total + (if pending.Some? then pending.value else 0) <= U32_MAX
    ensures WithUnits("", total, pending, previousUnit, true) ==
      Some(total + if pending.Some? then pending.value else 0)
  {
  }

  lemma WriteStep(value: nat, n: nat, started: bool, zeroPending: bool)
    requires 1 <= n <= 5
    ensures var p := n - 1;
      var digit := (value / POWERS[p]) % 10;
      WriteFrom(value, n, started, zeroPending) ==
      if digit == 0 then WriteFrom(value, p, started, zeroPending || (started && value % POWERS[p] != 0))
      else WritePosition(digit, p, started, zeroPending) + WriteFrom(value, p, true, false)
    ensures WriteFrom(value, 0, started, zeroPending) == ""
  {
  }

  /** The unit reader reads back what was written from any position below ten thousand. */
  lemma {:induction false} UnitsReadBack(
    value: nat, n: nat, started: bool, zeroPending: bool, total: nat, previousUnit: nat, saw: bool)
    requires n <= 4 && POWERS[n] <= previousUnit && total + POWERS[n] <= U32_MAX - 10_000
    requires saw || value % POWERS[n] >= 10
    ensures WithUnits(WriteFrom(value, n, started, zeroPending), total, None, previousUnit, saw) ==
      Some(total + value % POWERS[n])
    decreases n
  {
    hide WithUnits, WriteFrom, WritePosition;
    if n == 0 {
      WriteStep(value, 1, started, zeroPending);
      ReadEnd(total, None, previousUnit);
    } else {
      var p := n - 1;
      var digit := (value / POWERS[p]) % 10;
      DigitSplit(value, p);
      WriteStep(value, n, started, zeroPending);
      assert POWERS[n] == 10 * POWERS[p];
      if digit == 0 {
        UnitsReadBack(value, p, started, zeroPending || (started && value % POWERS[p] != 0), total, previousUnit, saw);
      } else {
        var rest := WriteFrom(value, p, true, false);
        assert digit * POWERS[p] < POWERS[n];
        ReadPosition(digit, p, started, zeroPending, rest, total, previousUnit, saw);
        if p == 0 {
          WriteStep(value, 1, true, false);
          ReadEnd(total, Some(digit), previousUnit);
        } else {
          UnitsReadBack(value, p, true, false, total + digit * POWERS[p], POWERS[p], true);
        }
      }
    }
  }

  predicate IsNumeralChar(c: char) {
    c !in "万第条之" && !IsWhitespace(c) && !IsAsciiDigit(c)
  }

  predicate IsNumeralText(s: string) {
    forall c :: c in s ==> IsNumeralChar(c)
  }

  lemma PositionChars(digit: nat, p: nat, started: bool, zeroPending: bool)
    requires 1 <= digit < 10 && p < 4
    ensures IsNumeralText(WritePosition(digit, p, started, zeroPending))
    ensures WritePosition(digit, p, started, zeroPending) != []
    ensures 1 <= p ==> !AllChars(WritePosition(digit, p, started, zeroPending), IsChineseDigit)
  {
    DigitIsRead(0);
    DigitIsRead(digit);
    if 1 <= p { UnitIsRead(p); }
    hide IsNumeralChar, ChineseDigit, ChineseUnit;
    assert IsNumeralChar(DIGITS[0]) && IsNumeralChar(DIGITS[digit]);
    var piece := WritePosition(digit, p, started, zeroPending);
    if 1 <= p {
      assert IsNumeralChar(UNITS[p][0]);
      assert piece[|piece| - 1] == UNITS[p][0];
    }
  }

  /** Below ten thousand only numeral characters are written, with a unit unless the rest is a single digit. */
  lemma {:induction false} WrittenChars(value: nat, n: nat, started: bool, zeroPending: bool)
    requires n <= 4
    ensures IsNumeralText(WriteFrom(value, n, started, zeroPending))
    ensures 10 <= value % POWERS[n] ==> !AllChars(WriteFrom(value, n, started, zeroPending), IsChineseDigit)
    ensures WriteFrom(value, n, started, zeroPending) == "" <==> value % POWERS[n] == 0
    decreases n
  {
    hide WriteFrom, WritePosition, IsNumeralChar, ChineseDigit;
    if n == 0 {
      WriteStep(value, 1, started, zeroPending);
    } else {
      var p := n - 1;
      var digit := (value / POWERS[p]) % 10;
      DigitSplit(value, p);
      WriteStep(value, n, started, zeroPending);
      assert POWERS[n] == 10 * POWERS[p];
      if digit == 0 {
        WrittenChars(value, p, started, zeroPending || (started && value % POWERS[p] != 0));
      } else {
        PositionChars(digit, p, started, zeroPending);
        WrittenChars(value, p, true, false);
        assert digit * POWERS[p] >= 1;
        var piece, rest := WritePosition(digit, p, started, zeroPending), WriteFrom(value, p, true, false);
        if 1 <= p {
          var i :| 0 <= i < |piece| && !IsChineseDigit(piece[i]);
          assert (piece + rest)[i] == piece[i];
        }
      }
    }
  }

  lemma LeadingDigitBelowTen(value: nat, p: nat)
    requires p < 4 && 1 <= value % POWERS[p + 1] < 10 && (value / POWERS[p]) % 10 != 0
    ensures p == 0
  {
    DigitSplit(value, p);
    assert ((value / POWERS[p]) % 10) * POWERS[p] >= POWERS[p];
  }

  lemma LastDigitWritten(value: nat, started: bool, zeroPending: bool)
    requires value % 10 != 0
    ensures WriteFrom(value, 1, started, zeroPending)
      == if zeroPending then [DIGITS[0]] + [DIGITS[value % 10]] else [DIGITS[value % 10]]
  {
    WriteStep(value, 1, started, zeroPending);
    WriteStep(value, 1, true, false);
  }

  lemma ZeroDigitIsSkipped(value: nat, p: nat, started: bool, zeroPending: bool)
    requires p < 4 && (value / POWERS[p]) % 10 == 0
    ensures value % POWERS[p + 1] == value % POWERS[p]
    ensures WriteFrom(value, p + 1, started, zeroPending)
      == WriteFrom(value, p, started, zeroPending || (started && value % POWERS[p] != 0))
  {
    hide WriteFrom;
    DigitSplit(value, p);
    WriteStep(value, p + 1, started, zeroPending);
    assert POWERS[p + 1] == 10 * POWERS[p];
  }

  /** A rest below ten is written as its digit, after at most one zero. */
  lemma {:induction false} WrittenDigit(value: nat, n: nat, d: nat, started: bool, zeroPending: bool)
    requires 1 <= n <= 4 && d == value % POWERS[n] && 1 <= d < 10
    ensures WriteFrom(value, n, started, zeroPending) in {[DIGITS[d]], [DIGITS[0]] + [DIGITS[d]]}
    decreases n
  {
    hide WriteFrom;
    var p := n - 1;
    if (value / POWERS[p]) % 10 == 0 {
      ZeroDigitIsSkipped(value, p, started, zeroPending);
      assert p != 0;
      WrittenDigit(value, p, d, started, zeroPending || (started && value % POWERS[p] != 0));
    } else {
      LeadingDigitBelowTen(value, p);
      assert POWERS[1] == 10;
      LastDigitWritten(value, started, zeroPending);
    }
  }

  lemma ReadDigits(d: nat)
    requires d < 10
    ensures ParseChineseUnderTenThousand([DIGITS[d]]) == Some(d)
    ensures ParseChineseUnderTenThousand([DIGITS[0]] + [DIGITS[d]]) == Some(d)
  {
    DigitIsRead(0);
    DigitIsRead(d);
    hide ChineseDigit;
    var one, two := [DIGITS[d]], [DIGITS[0]] + [DIGITS[d]];
    assert Positional(one[1..], d, ChineseDigit) == Some(d);
    assert two[1..] == one;
  }

  lemma UnderTenThousandReadBack(value: nat, started: bool, zeroPending: bool)
    requires 1 <= value % 10_000
    ensures ParseChineseUnderTenThousand(WriteFrom(value, 4, started, zeroPending)) == Some(value % 10_000)
  {
    hide WriteFrom, WithUnits, Positional, ChineseDigit;
    if value % 10_000 < 10 {
      WrittenDigit(value, 4, value % POWERS[4], started, zeroPending);
      ReadDigits(value % 10_000);
    } else {
      WrittenChars(value, 4, started, zeroPending);
      UnitsReadBack(value, 4, started, zeroPending, 0, 10_000, false);
    }
  }

  lemma AbsentChar(s: string, c: char)
    requires c !in s
    ensures Find(s, [c], 0) == None
  {
    FindChar(s, c);
  }

  lemma SmallReadBack(v: nat)
    requires 1 <= v < 10_000
    ensures ParseChineseOrdinal(IntegerToChinese(v)) == Some(v)
  {
    hide WriteFrom, ParseChineseUnderTenThousand, Find;
    WriteStep(v, 5, false, false);
    UnderTenThousandReadBack(v, false, false);
    WrittenChars(v, 4, false, false);
    assert !IsNumeralChar('万');
    AbsentChar(IntegerToChinese(v), '万');
  }

  lemma LargeReadBack(v: nat)
    requires 10_000 <= v && IsOrdinal(v)
    ensures ParseChineseOrdinal(IntegerToChinese(v)) == Some(v)
  {
    hide WriteFrom, ParseChineseUnderTenThousand;
    var text := IntegerToChinese(v);
    var a, second := v / 10_000, WriteFrom(v, 4, true, false);
    WriteStep(v, 5, false, false);
    assert text == [DIGITS[a]] + "万" + second;
    DigitIsRead(a);
    OccursChar(text, '万', 0);
    OccursChar(text, '万', 1);
    assert Find(text, "万", 0) == Some(1);
    assert text[..1] == [DIGITS[a]] && text[2..] == second;
    ReadDigits(a);
    WrittenChars(v, 4, true, false);
    assert !IsNumeralChar('万');
    AbsentChar(second, '万');
    assert !Contains(second, "万") && v == a * 10_000 + v % 10_000;
    if v % 10_000 != 0 {
      UnderTenThousandReadBack(v, true, false);
      assert ParseChineseUnderTenThousand(second) == Some(v % 10_000) && second != [];
    } else {
      assert second == [];
    }
  }

  /** Every article ordinal is read back from its Chinese numeral. */
  lemma ChineseReadBack(v: nat)
    requires IsOrdinal(v)
    ensures ParseChineseOrdinal(IntegerToChinese(v)) == Some(v)
  {
    hide ParseChineseOrdinal, IntegerToChinese;
    if v < 10_000 { SmallReadBack(v); } else { LargeReadBack(v); }
  }

  // ----- decimal numerals are read back -----

  lemma {:induction false} PositionalAppend(s: string, c: char, acc: nat, digit: char -> Option<nat>)
    ensures Positional(s + [c], acc, digit) ==
      match Positional(s, acc, digit)
      case None => None
      case Some(n) => Positional([c], n, digit)
    decreases |s|
  {
    if s == [] {
      assert s + [c] == [c];
    } else {
      assert (s + [c])[1..] == s[1..] + [c];
      if digit(s[0]).Some? { PositionalAppend(s[1..], c, acc * 10 + digit(s[0]).value, digit); }
    }
  }

  lemma DecimalDigit(d: nat)
    requires d < 10
    ensures AsciiDigit("0123456789"[d]) == Some(d) && IsAsciiDigit("0123456789"[d])
  {
    if d < 5 {
      if d == 0 {} else if d == 1 {} else if d == 2 {} else if d == 3 {} else {}
    } else {
      if d == 5 {} else if d == 6 {} else if d == 7 {} else if d == 8 {} else {}
    }
  }

  lemma {:induction false} DecimalReadBack(n: nat)
    requires n <= U32_MAX
    ensures Positional(Decimal(n), 0, AsciiDigit) == Some(n)
    ensures Decimal(n) != [] && AllChars(Decimal(n), IsAsciiDigit)
    decreases n
  {
    DecimalDigit(n % 10);
    hide AsciiDigit;
    var c := "0123456789"[n % 10];
    if n >= 10 {
      DecimalReadBack(n / 10);
      PositionalAppend(Decimal(n / 10), c, 0, AsciiDigit);
    }
    var m := n / 10;
    assert Positional([c], m, AsciiDigit) == Some(n) by { assert [c][1..] == []; }
    assert Positional([c], 0, AsciiDigit) == Some(n % 10) by { assert [c][1..] == []; }
  }

  // ----- spellings of an article number are read back -----

  /** A bare numeral for `v`, in either notation. */
  ghost predicate IsSpelling(s: string, v: nat) {
    && s != [] && ParseNumeral(s) == Some(v)
    && forall c :: c in s ==> c !in "第条之" && !IsWhitespace(c)
  }

  lemma ChineseIsSpelling(v: nat)
    requires IsOrdinal(v)
    ensures IsSpelling(IntegerToChinese(v), v)
  {
    ChineseReadBack(v);
    ChineseChars(v);
    hide IntegerToChinese, ParseChineseOrdinal;
  }

  lemma ChineseChars(v: nat)
    requires IsOrdinal(v)
    ensures IntegerToChinese(v) != [] && !AllChars(IntegerToChinese(v), IsAsciiDigit)
    ensures forall c :: c in IntegerToChinese(v) ==> c !in "第条之" && !IsWhitespace(c)
  {
    hide WriteFrom, IsNumeralChar;
    var text := IntegerToChinese(v);
    WriteStep(v, 5, false, false);
    WrittenChars(v, 4, false, false);
    if v >= 10_000 {
      WrittenChars(v, 4, true, false);
      DigitIsRead(v / 10_000);
      assert text == [DIGITS[v / 10_000]] + "万" + WriteFrom(v, 4, true, false);
    }
    forall c | c in text ensures c !in "第条之" && !IsWhitespace(c) && !IsAsciiDigit(c) {
      assert IsNumeralChar(c) ==> c !in "第条之" && !IsWhitespace(c) && !IsAsciiDigit(c) by { NumeralCharMeans(c); }
    }
    assert text[0] in text;
  }

  lemma NumeralCharMeans(c: char)
    ensures IsNumeralChar(c) ==> c !in "第条之" && !IsWhitespace(c) && !IsAsciiDigit(c)
  {
  }

  lemma DigitIsPlain(c: char)
    requires IsAsciiDigit(c)
    ensures c !in "第条之" && !IsWhitespace(c)
  {
  }

  lemma DecimalIsSpelling(v: nat)
    requires IsOrdinal(v)
    ensures IsSpelling(Decimal(v), v)
  {
    DecimalReadBack(v);
    hide Decimal, ParseNumeral, IsAsciiDigit, IsWhitespace;
    forall c | c in Decimal(v) ensures c !in "第条之" && !IsWhitespace(c) { DigitIsPlain(c); }
  }

  /** A spelling is read back bare, with the article suffix, and with prefix and suffix. */
  lemma ComponentReadBack(s: string, v: nat)
    requires IsSpelling(s, v)
    ensures ParseOrdinalComponent(s) == Some(v)
    ensures ParseOrdinalComponent(s + "条") == Some(v)
    ensures ParseOrdinalComponent("第" + s + "条") == Some(v)
  {
    hide ParseNumeral, Trim;
    assert s[0] in s && s[|s| - 1] in s;
    assert forall i :: 0 <= i < |s| ==> s[i] in s;
    var suffixed, full := s + "条", "第" + s + "条";
    TrimFixed(s);
    TrimFixed(suffixed);
    TrimFixed(full);
    assert suffixed[..|suffixed| - 1] == s;
    assert full[1..] == suffixed;
  }

  /** A text without 之 and without surrounding whitespace parses as its ordinal. */
  lemma PlainReadBack(text: string, v: nat)
    requires text != [] && !IsWhitespace(text[0]) && !IsWhitespace(text[|text| - 1]) && '之' !in text
    requires ParseOrdinalComponent(text) == Some(v)
    ensures ParseArticleNumber(text) == Some(ParsedArticleNumber(v, None))
  {
    hide ParseOrdinalComponent, Trim;
    TrimFixed(text);
    AbsentChar(text, '之');
  }

  /** A written base with its article suffix, ready to take a sub-article. */
  ghost predicate IsBaseForm(form: string, v: nat) {
    && form != [] && !IsWhitespace(form[0]) && form[|form| - 1] == '条'
    && '之' !in form
    && ParseOrdinalComponent(form) == Some(v)
  }

  /** The text up to 之 is the base and the text after it the sub-article. */
  lemma SplitAtSubarticle(base: string, sub: string)
    requires '之' !in base && '之' !in sub
    ensures var text := base + ("之" + sub);
      && Find(text, "之", 0) == Some(|base|)
      && text[..|base|] == base && text[|base| + 1..] == sub && !Contains(sub, "之")
  {
    var text := base + ("之" + sub);
    AbsentChar(sub, '之');
    FindMeans(text, "之", 0);
    hide Find;
    OccursChar(text, '之', |base|);
    forall j | 0 <= j < |base| ensures !OccursAt(text, "之", j) {
      OccursChar(text, '之', j);
      assert text[j] == base[j] && base[j] in base;
    }
  }

  lemma SubarticleReadBack(base: string, b: nat, sub: string, v: nat)
    requires IsBaseForm(base, b) && IsSpelling(sub, v)
    ensures ParseArticleNumber(base + ("之" + sub)) == Some(ParsedArticleNumber(b, Some(v)))
  {
    hide ParseOrdinalComponent, Trim, ParseNumeral, Find;
    var text := base + ("之" + sub);
    assert Trim(text) == text by {
      assert sub[|sub| - 1] in sub && text[|text| - 1] == sub[|sub| - 1];
      TrimFixed(text);
    }
    ComponentReadBack(sub, v);
    SplitAtSubarticle(base, sub);
    assert EndsWith(base, "条");
  }

  /** The written forms of a base, by any spelling of it. */
  lemma BaseForms(s: string, v: nat)
    requires IsSpelling(s, v)
    ensures IsBaseForm(s + "条", v) && IsBaseForm("第" + s + "条", v)
  {
    hide ParseOrdinalComponent, ParseNumeral;
    assert !IsWhitespace('第');
    hide IsWhitespace;
    ComponentReadBack(s, v);
    assert s[0] in s && '之' !in s;
    var suffixed, full := s + "条", "第" + s + "条";
    assert suffixed[0] == s[0] && suffixed[|suffixed| - 1] == '条';
    assert full[0] == '第' && full[|full| - 1] == '条';
  }

  /** Every form of a base, with every spelling of a sub-article, is read back. */
  lemma FormReadBack(form: string, n: ParsedArticleNumber)
    requires IsBaseForm(form, n.base)
    ensures n.subarticle.None? ==> ParseArticleNumber(form) == Some(n)
    ensures n.subarticle.Some? ==> forall sub :: IsSpelling(sub, n.subarticle.value) ==>
      ParseArticleNumber(form + ("之" + sub)) == Some(n)
  {
    hide ParseOrdinalComponent, ParseArticleNumber, IsSpelling;
    match n.subarticle {
      case None => PlainReadBack(form, n.base);
      case Some(v) =>
        forall sub | IsSpelling(sub, v) ensures ParseArticleNumber(form + ("之" + sub)) == Some(n) {
          SubarticleReadBack(form, n.base, sub, v);
        }
    }
  }

  /** Every searched spelling of an article number, the canonical one included, parses back to it. */
  lemma VariantsReadBack(n: ParsedArticleNumber)
    requires IsArticleNumber(n)
    ensures ParseArticleNumber(CanonicalParsedArticleNumber(n)) == Some(n)
    ensures forall v :: v in Variants(n) ==> ParseArticleNumber(v) == Some(n)
  {
    hide ParseArticleNumber, IsSpelling, IsBaseForm, IntegerToChinese, Decimal;
    var c, d := IntegerToChinese(n.base), Decimal(n.base);
    ChineseIsSpelling(n.base);
    DecimalIsSpelling(n.base);
    BaseForms(c, n.base);
    BaseForms(d, n.base);
    FormReadBack("第" + c + "条", n);
    FormReadBack("第" + d + "条", n);
    FormReadBack(d + "条", n);
    match n.subarticle {
      case None =>
        BareDecimalReadBack(n.base);
        assert CanonicalParsedArticleNumber(n) == "第" + c + "条";
      case Some(v) =>
        ChineseIsSpelling(v);
        DecimalIsSpelling(v);
        assert CanonicalParsedArticleNumber(n) == "第" + c + "条" + ("之" + IntegerToChinese(v));
    }
  }

  /** The searched spellings: the base in either numeral, in decimals also without 第, and the sub-article in either. */
  ghost predicate IsVariant(text: string, n: ParsedArticleNumber) {
    var c, d := IntegerToChinese(n.base), Decimal(n.base);
    match n.subarticle
    case None => text in {"第" + c + "条", "第" + d + "条", d + "条", d}
    case Some(v) =>
      exists front, back :: (&& front in {"第" + c + "条", "第" + d + "条", d + "条"}
                             && back in {IntegerToChinese(v), Decimal(v)} && text == front + ("之" + back))
  }

  lemma VariantsAreSpellings(n: ParsedArticleNumber)
    ensures forall text :: text in Variants(n) <==> IsVariant(text, n)
    ensures Variants(n)[0] == CanonicalParsedArticleNumber(n)
  {
    hide IntegerToChinese, Decimal;
    forall text ensures text in Variants(n) <==> IsVariant(text, n) {
      if n.subarticle.None? {
        PlainVariants(text, n);
      } else {
        if IsVariant(text, n) { VariantIsListed(text, n); }
        if text in Variants(n) { ListedIsVariant(text, n); }
      }
    }
  }

  lemma PlainVariants(text: string, n: ParsedArticleNumber)
    requires n.subarticle.None?
    ensures text in Variants(n) <==> IsVariant(text, n)
  {
    hide IntegerToChinese, Decimal;
    var c, d := IntegerToChinese(n.base), Decimal(n.base);
    assert CanonicalParsedArticleNumber(n) == "第" + c + "条";
    assert Variants(n) == ["第" + c + "条", "第" + c + "条", "第" + d + "条", d + "条", d];
  }

  lemma VariantIsListed(text: string, n: ParsedArticleNumber)
    requires n.subarticle.Some? && IsVariant(text, n)
    ensures text in Variants(n)
  {
    hide IntegerToChinese, Decimal;
  }

  lemma ListedIsVariant(text: string, n: ParsedArticleNumber)
    requires n.subarticle.Some? && text in Variants(n)
    ensures IsVariant(text, n)
  {
    hide IntegerToChinese, Decimal;
    var v := n.subarticle.value;
    var k :| 0 <= k < |Variants(n)| && Variants(n)[k] == text;
    var front := BaseVariants(n.base)[if k < 3 then 0 else if k < 5 then 1 else 2];
    var back := if k in {0, 1, 3, 5} then IntegerToChinese(v) else Decimal(v);
    assert text == front + ("之" + back);
  }

  lemma BareDecimalReadBack(v: nat)
    requires IsOrdinal(v)
    ensures ParseArticleNumber(Decimal(v)) == Some(ParsedArticleNumber(v, None))
  {
    DecimalIsSpelling(v);
    ComponentReadBack(Decimal(v), v);
    DecimalEnds(v);
    PlainReadBack(Decimal(v), v);
  }

  lemma DecimalEnds(v: nat)
    requires IsOrdinal(v)
    ensures var d := Decimal(v);
      d != [] && !IsWhitespace(d[0]) && !IsWhitespace(d[|d| - 1]) && '之' !in d
  {
    DecimalReadBack(v);
    hide Decimal;
  }

  /** Only ordinals in range are ever accepted. */
  lemma AcceptedIsArticleNumber(s: string)
    ensures ParseArticleNumber(s).Some? ==> IsArticleNumber(ParseArticleNumber(s).value)
  {
    hide Trim, Positional, ParseChineseOrdinal;
  }

  lemma ParsingTrims(s: string)
    ensures ParseArticleNumber(Trim(s)) == ParseArticleNumber(s)
  {
    TrimTwice(s);
    hide Trim, ParseOrdinalComponent;
  }

  // ----- normal forms -----

  /** Two spellings are equivalent exactly when they have the same normal form. */
  lemma EquivalentIffSameNormalForm(a: string, b: string)
    ensures ArticleNumbersEquivalent(a, b) <==> NormalizeArticleFilterValue(a) == NormalizeArticleFilterValue(b)
  {
    hide ParseArticleNumber, Trim, CanonicalParsedArticleNumber, Variants;
    ParsingTrims(a);
    ParsingTrims(b);
    AcceptedIsArticleNumber(a);
    AcceptedIsArticleNumber(b);
    if ParseArticleNumber(a).Some? { VariantsReadBack(ParseArticleNumber(a).value); }
    if ParseArticleNumber(b).Some? { VariantsReadBack(ParseArticleNumber(b).value); }
  }

  /** Normalising twice is normalising once, and a normal form names the same article. */
  lemma NormalFormIsStable(s: string)
    ensures ParseArticleNumber(NormalizeArticleFilterValue(s)) == ParseArticleNumber(s)
    ensures NormalizeArticleFilterValue(NormalizeArticleFilterValue(s)) == NormalizeArticleFilterValue(s)
  {
    ParsingTrims(s);
    TrimTwice(s);
    AcceptedIsArticleNumber(s);
    hide ParseArticleNumber, Trim, CanonicalParsedArticleNumber, Variants;
    if ParseArticleNumber(s).Some? { VariantsReadBack(ParseArticleNumber(s).value); }
  }

  // ----- expansion -----

  lemma {:induction false} ExpandedFrom(values: seq<string>)
    ensures forall e :: e in ExpandedValues(values) <==> exists k :: 0 <= k < |values| && e in ExpandedValue(values[k])
    decreases |values|
  {
    hide ExpandedValue;
    if values != [] {
      ExpandedFrom(values[1..]);
      forall e ensures e in ExpandedValues(values) <==> exists k :: 0 <= k < |values| && e in ExpandedValue(values[k]) {
        if e in ExpandedValues(values[1..]) {
          var k :| 0 <= k < |values[1..]| && e in ExpandedValue(values[1..][k]);
          assert values[k + 1] == values[1..][k];
        }
        if k :| 0 <= k < |values| && e in ExpandedValue(values[k]) {
          if k > 0 { assert values[1..][k - 1] == values[k]; }
        }
      }
    }
  }

  lemma {:induction false} DedupKeepsEachOnce(values: seq<string>, seen: set<string>)
    ensures forall e :: e in DedupPreserveOrder(values, seen) <==> e in values && e !in seen
    ensures forall i, j :: 0 <= i < j < |DedupPreserveOrder(values, seen)| ==>
      DedupPreserveOrder(values, seen)[i] != DedupPreserveOrder(values, seen)[j]
    decreases |values|
  {
    if values != [] {
      var next := if values[0] in seen then seen else seen + {values[0]};
      DedupKeepsEachOnce(values[1..], next);
      assert values == [values[0]] + values[1..];
      var tail := DedupPreserveOrder(values[1..], next);
      assert forall i :: 0 <= i < |tail| ==> tail[i] in tail;
    }
  }

  /**
   An expanded filter holds, once each, all variants of every accepted value and
   the trimmed text of every other; each of them still names what it came from.
   */
  lemma ExpansionIsFaithful(values: seq<string>)
    ensures var expanded := ExpandedArticleFilterValues(values);
      && (forall i, j :: 0 <= i < j < |expanded| ==> expanded[i] != expanded[j])
      && (forall e :: e in expanded ==> exists k :: 0 <= k < |values| && ArticleNumbersEquivalent(e, values[k]))
      && (forall k, v :: 0 <= k < |values| && v in ExpandedValue(values[k]) ==> v in expanded)
  {
    ExpandedFrom(values);
    DedupKeepsEachOnce(ExpandedValues(values), {});
    hide ExpandedValue, ExpandedValues, DedupPreserveOrder, ArticleNumbersEquivalent;
    forall e | e in ExpandedArticleFilterValues(values)
      ensures exists k :: 0 <= k < |values| && ArticleNumbersEquivalent(e, values[k])
    {
      var k :| 0 <= k < |values| && e in ExpandedValue(values[k]);
      ExpandedIsEquivalent(values[k], e);
    }
  }

  lemma ExpandedIsEquivalent(value: string, e: string)
    requires e in ExpandedValue(value)
    ensures ArticleNumbersEquivalent(e, value)
  {
    ParsingTrims(value);
    TrimTwice(value);
    AcceptedIsArticleNumber(value);
    hide ParseArticleNumber, Trim, CanonicalParsedArticleNumber, Variants;
    if ParseArticleNumber(value).Some? { VariantsReadBack(ParseArticleNumber(value).value); }
  }
}
