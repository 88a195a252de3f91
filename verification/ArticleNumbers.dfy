/**
 Article numbers: printing in Chinese numerals, parsing Arabic and Chinese
 spellings with optional sub-articles, and the filter values built from both.
 */
module ArticleNumbers {
  import opened Wrappers
  import opened Text

  const MAX_ARTICLE_ORDINAL: nat := 99_999
  const U32_MAX: nat := 0xFFFF_FFFF

  datatype ParsedArticleNumber = ParsedArticleNumber(base: nat, subarticle: Option<nat>)

  // ----- reading numerals -----

  function ChineseDigit(c: char): Option<nat> {
    match c
    case '零' => Some(0)
    case '〇' => Some(0)
    case '一' => Some(1)
    case '二' => Some(2)
    case '两' => Some(2)
    case '三' => Some(3)
    case '四' => Some(4)
    case '五' => Some(5)
    case '六' => Some(6)
    case '七' => Some(7)
    case '八' => Some(8)
    case '九' => Some(9)
    case _ => None
  }

  function ChineseUnit(c: char): Option<nat> {
    match c
    case '十' => Some(10)
    case '百' => Some(100)
    case '千' => Some(1000)
    case _ => None
  }

  function AsciiDigit(c: char): Option<nat> {
    if IsAsciiDigit(c) then Some(c as int - '0' as int) else None
  }

  /** Results of 32-bit checked arithmetic. */
  function Checked(n: nat): Option<nat> {
    if n <= U32_MAX then Some(n) else None
  }

  /** Positional reading, digit by digit, failing on 32-bit overflow. */
  function Positional(value: string, acc: nat, digit: char -> Option<nat>): Option<nat> {
    if value == [] then Some(acc)
    else
      match digit(value[0])
      case None => None
      case Some(d) => if acc * 10 + d <= U32_MAX then Positional(value[1..], acc * 10 + d, digit) else None
  }

  /** Reading with units, from the state of the reader between two characters. */
  function WithUnits(value: string, total: nat, pending: Option<nat>, previousUnit: nat, sawUnit: bool): Option<nat> {
    var held := if pending.Some? then pending.value else 0;
    if value == [] then
      if sawUnit then Checked(total + held) else None
    else
      match ChineseDigit(value[0])
      case Some(d) =>
        if d == 0 then WithUnits(value[1..], total, None, previousUnit, sawUnit)
        else if pending.Some? then None
        else WithUnits(value[1..], total, Some(d), previousUnit, sawUnit)
      case None =>
        match ChineseUnit(value[0])
        case None => None
        case Some(unit) =>
          var d := if pending.Some? then pending.value else 1;
          if unit >= previousUnit || total + d * unit > U32_MAX then None
          else WithUnits(value[1..], total + d * unit, None, unit, true)
  }

  predicate IsChineseDigit(c: char) {
    ChineseDigit(c).Some?
  }

  function ParseChineseUnderTenThousand(value: string): Option<nat> {
    if value == [] then None
    else if AllChars(value, IsChineseDigit) then Positional(value, 0, ChineseDigit)
    else WithUnits(value, 0, None, 10_000, false)
  }

  method ParseChineseUnderTenThousandLoop(value: string) returns (r: Option<nat>)
    ensures r == ParseChineseUnderTenThousand(value)
  {
    if value == [] { return None; }
    if AllChars(value, IsChineseDigit) {
      var accumulator: nat := 0;
      for i := 0 to |value|
        invariant Positional(value[i..], accumulator, ChineseDigit) == Positional(value, 0, ChineseDigit)
      {
        var next := accumulator * 10 + ChineseDigit(value[i]).value;
        assert value[i..][1..] == value[i + 1..];
        if next > U32_MAX { return None; }
        accumulator := next;
      }
      return Some(accumulator);
    }
    var total: nat, pending: Option<nat>, previousUnit: nat, sawUnit := 0, None, 10_000, false;
    for i := 0 to |value|
      invariant WithUnits(value[i..], total, pending, previousUnit, sawUnit) == WithUnits(value, 0, None, 10_000, false)
    {
      assert value[i..][1..] == value[i + 1..];
      var digit := ChineseDigit(value[i]);
      if digit.Some? {
        if digit.value == 0 {
          pending := None;
        } else if pending.Some? {
          return None;
        } else {
          pending := digit;
        }
        continue;
      }
      var unit := ChineseUnit(value[i]);
      if unit.None? || unit.value >= previousUnit { return None; }
      var d := if pending.Some? then pending.value else 1;
      if total + d * unit.value > U32_MAX { return None; }
      total, pending, previousUnit, sawUnit := total + d * unit.value, None, unit.value, true;
    }
    if !sawUnit { return None; }
    return Checked(total + if pending.Some? then pending.value else 0);
  }

  function ParseChineseOrdinal(value: string): Option<nat> {
    var parsed :=
      match Find(value, "万", 0)
      case None => ParseChineseUnderTenThousand(value)
      case Some(at) =>
        var first, second := value[..at], value[at + 1..];
        if Contains(second, "万") || first == [] then None
        else
          var below := if second == [] then Some(0) else ParseChineseUnderTenThousand(second);
          match (ParseChineseUnderTenThousand(first), below)
          case (Some(upper), Some(lower)) => Checked(upper * 10_000 + lower)
          case _ => None;
    if parsed.Some? && parsed.value > 0 then parsed else None
  }

  function ParseNumeral(ordinal: string): Option<nat> {
    var parsed :=
      if AllChars(ordinal, IsAsciiDigit) then Positional(ordinal, 0, AsciiDigit) else ParseChineseOrdinal(ordinal);
    if parsed.Some? && 1 <= parsed.value <= MAX_ARTICLE_ORDINAL then parsed else None
  }

  function ParseOrdinalComponent(value: string): Option<nat> {
    var trimmed := Trim(value);
    var unprefixed := if StartsWith(trimmed, "第") then trimmed[1..] else trimmed;
    var ordinal := if EndsWith(unprefixed, "条") then unprefixed[..|unprefixed| - 1] else unprefixed;
    if ordinal == [] || AnyChar(ordinal, IsWhitespace) then None else ParseNumeral(ordinal)
  }

  function ParseArticleNumber(value: string): Option<ParsedArticleNumber> {
    var trimmed := Trim(value);
    match Find(trimmed, "之", 0)
    case None =>
      (match ParseOrdinalComponent(trimmed)
       case None => None
       case Some(base) => Some(ParsedArticleNumber(base, None)))
    case Some(at) =>
      var base, subarticle := trimmed[..at], trimmed[at + 1..];
      if Contains(subarticle, "之") || !EndsWith(base, "条") then None
      else
        match (ParseOrdinalComponent(subarticle), ParseOrdinalComponent(base))
        case (Some(s), Some(b)) => Some(ParsedArticleNumber(b, Some(s)))
        case _ => None
  }

  // ----- writing numerals -----

  const DIGITS := "零一二三四五六七八九"
  const UNITS: seq<string> := ["", "十", "百", "千", "万"]
  const POWERS: seq<nat> := [1, 10, 100, 1_000, 10_000]

  /** What one non-zero decimal position adds to the numeral. */
  function WritePosition(digit: nat, position: nat, started: bool, zeroPending: bool): string
    requires digit < 10 && position < 5
  {
    (if zeroPending then [DIGITS[0]] else "")
    + (if digit == 1 && position == 1 && !started then "" else [DIGITS[digit]])
    + UNITS[position]
  }

  /** The numeral of the lowest `n` decimal positions, from the writer's state. */
  function WriteFrom(value: nat, n: nat, started: bool, zeroPending: bool): string
    requires n <= 5
  {
    if n == 0 then ""
    else
      var position := n - 1;
      var digit := (value / POWERS[position]) % 10;
      if digit == 0 then
        WriteFrom(value, position, started, zeroPending || (started && value % POWERS[position] != 0))
      else
        WritePosition(digit, position, started, zeroPending) + WriteFrom(value, position, true, false)
  }

  function IntegerToChinese(value: nat): string {
    WriteFrom(value, 5, false, false)
  }

  method IntegerToChineseLoop(value: nat) returns (output: string)
    ensures output == IntegerToChinese(value)
  {
    output := "";
    var started, zeroPending := false, false;
    for n := 5 downto 0
      invariant output + WriteFrom(value, n, started, zeroPending) == IntegerToChinese(value)
    {
      var digit := (value / POWERS[n]) % 10;
      if digit == 0 {
        if started && value % POWERS[n] != 0 {
          zeroPending := true;
        }
        continue;
      }
      ghost var written := output;
      ghost var piece := WritePosition(digit, n, started, zeroPending);
      assert (written + piece) + WriteFrom(value, n, true, false) == IntegerToChinese(value);
      if zeroPending {
        output := output + [DIGITS[0]];
        zeroPending := false;
      }
      if !(digit == 1 && n == 1 && !started) {
        output := output + [DIGITS[digit]];
      }
      output := output + UNITS[n];
      started := true;
      assert output == written + piece;
    }
  }

  /** Ordinary decimal notation. */
  function Decimal(n: nat): string {
    if n < 10 then ["0123456789"[n]] else Decimal(n / 10) + ["0123456789"[n % 10]]
  }

  function CanonicalParsedArticleNumber(n: ParsedArticleNumber): string {
    "第" + IntegerToChinese(n.base) + "条"
    + if n.subarticle.Some? then "之" + IntegerToChinese(n.subarticle.value) else ""
  }

  // ----- filter values -----

  function NormalizeArticleFilterValue(value: string): string {
    match ParseArticleNumber(value)
    case Some(n) => CanonicalParsedArticleNumber(n)
    case None => Trim(value)
  }

  predicate ArticleNumbersEquivalent(left: string, right: string) {
    match (ParseArticleNumber(left), ParseArticleNumber(right))
    case (Some(l), Some(r)) => l == r
    case _ => Trim(left) == Trim(right)
  }

  function BaseVariants(base: nat): seq<string> {
    ["第" + IntegerToChinese(base) + "条", "第" + Decimal(base) + "条", Decimal(base) + "条"]
  }

  /** Every spelling searched for: the canonical one first, then the variants. */
  function Variants(n: ParsedArticleNumber): seq<string> {
    var bases := BaseVariants(n.base);
    [CanonicalParsedArticleNumber(n)]
    + match n.subarticle
      case None => bases + [Decimal(n.base)]
      case Some(s) =>
        var chinese, decimal := "之" + IntegerToChinese(s), "之" + Decimal(s);
        [bases[0] + chinese, bases[0] + decimal, bases[1] + chinese, bases[1] + decimal,
         bases[2] + chinese, bases[2] + decimal]
  }

  function ExpandedValue(value: string): seq<string> {
    match ParseArticleNumber(value)
    case Some(n) => Variants(n)
    case None => if Trim(value) == [] then [] else [Trim(value)]
  }

  function ExpandedValues(values: seq<string>): seq<string> {
    if values == [] then [] else ExpandedValue(values[0]) + ExpandedValues(values[1..])
  }

  /** Drops every value seen before, keeping the order of first occurrences. */
  function DedupPreserveOrder(values: seq<string>, seen: set<string>): seq<string> {
    if values == [] then []
    else if values[0] in seen then DedupPreserveOrder(values[1..], seen)
    else [values[0]] + DedupPreserveOrder(values[1..], seen + {values[0]})
  }

  function ExpandedArticleFilterValues(values: seq<string>): seq<string> {
    DedupPreserveOrder(ExpandedValues(values), {})
  }
}
