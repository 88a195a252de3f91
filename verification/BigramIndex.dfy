/** The bigram search index: building it in batches, and searching through it instead of scanning every row. */
module BigramIndex {
  import opened Wrappers
  import opened Text

  // ----- bigrams -----

  predicate IsCjk(c: char) {
    var codepoint := c as int;
    || 0x3400 <= codepoint <= 0x4DBF
    || 0x4E00 <= codepoint <= 0x9FFF
    || 0xF900 <= codepoint <= 0xFAFF
    || 0x20000 <= codepoint <= 0x2FA1F
    || 0x30000 <= codepoint <= 0x323AF
  }

  predicate IsBigramAt(text: string, i: nat) {
    i + 1 < |text| && IsCjk(text[i]) && IsCjk(text[i + 1])
  }

  /** The distinct bigrams of a text. */
  function BigramsOf(text: string): set<string> {
    set i | 0 <= i < |text| - 1 && IsBigramAt(text, i) :: text[i..i + 2]
  }

  /** The bigrams in order of occurrence, carrying the previous character through the text. */
  method ChineseBigrams(text: string) returns (pairs: seq<string>)
    ensures forall b :: b in pairs <==> b in BigramsOf(text)
  {
    pairs := [];
    var previous: Option<char> := None;
    for i := 0 to |text|
      invariant previous == if i == 0 then None else Some(text[i - 1])
      invariant forall b :: b in pairs <==> exists j :: 0 <= j < i - 1 && IsBigramAt(text, j) && b == text[j..j + 2]
    {
      var character := text[i];
      if previous.Some? && IsCjk(previous.value) && IsCjk(character) {
        assert text[i - 1..i + 1] == [previous.value, character];
        assert IsBigramAt(text, i - 1);
        pairs := pairs + [[previous.value, character]];
      }
      previous := Some(character);
    }
  }

  // ----- building -----

  datatype Row = Row(id: int, text: string)
  datatype Posting = Posting(bigram: string, row: int)

  /** The built table, with the numbers of rows read and of pairs collected from them. */
  datatype Index = Index(table: set<Posting>, rows: nat, pairs: nat)
  datatype BuildError = BatchSizeOutOfRange

  function PostingsOf(row: Row): set<Posting> {
    set b | b in BigramsOf(row.text) :: Posting(b, row.id)
  }

  /** The index of a list of rows: every bigram of every row. */
  ghost predicate IsIndexOf(table: set<Posting>, rows: seq<Row>) {
    forall p :: p in table <==> exists k :: 0 <= k < |rows| && p in PostingsOf(rows[k])
  }

  function CountPairs(rows: seq<Row>): nat {
    if rows == [] then 0 else CountPairs(rows[..|rows| - 1]) + |BigramsOf(rows[|rows| - 1].text)|
  }

  /** Reads all rows, collecting postings and inserting them whenever a batch is full. */
  method Build(rows: seq<Row>, batchSize: int) returns (r: Result<Index, BuildError>)
    ensures r.Ok? <==> 1 <= batchSize <= 2_000_000
    ensures r.Ok? ==> IsIndexOf(r.value.table, rows) && r.value.rows == |rows| && r.value.pairs == CountPairs(rows)
  {
    hide BigramsOf;
    if batchSize < 1 || batchSize > 2_000_000 { return Err(BatchSizeOutOfRange); }
    var table: set<Posting>, indexedRows, indexedPairs := {}, 0, 0;
    var pending: seq<Posting> := [];
    assert rows[..0] == [];
    for n := 0 to |rows|
      invariant IsIndexOf(table + (set p | p in pending), rows[..n])
      invariant indexedRows == n && indexedPairs == CountPairs(rows[..n])
    {
      var row := rows[n];
      indexedRows := indexedRows + 1;
      var occurrences := ChineseBigrams(row.text);
      var pairs := set b | b in occurrences;
      assert pairs == BigramsOf(row.text);
      indexedPairs := indexedPairs + |pairs|;
      assert rows[..n + 1][..n] == rows[..n];
      ghost var before := table + (set p | p in pending);
      var remaining := pairs;
      while remaining != {}
        invariant remaining <= pairs
        invariant forall p :: p in table + (set q | q in pending) <==>
          p in before || (p.row == row.id && p.bigram in pairs - remaining)
      {
        var pair :| pair in remaining;
        remaining := remaining - {pair};
        pending := pending + [Posting(pair, row.id)];
      }
      IndexGrows(before, table + (set q | q in pending), rows, n);
      if |pending| >= batchSize {
        table := table + (set p | p in pending);
        pending := [];
      }
    }
    assert rows[..|rows|] == rows;
    table := table + (set p | p in pending);
    return Ok(Index(table, indexedRows, indexedPairs));
  }

  lemma IndexGrows(before: set<Posting>, after: set<Posting>, rows: seq<Row>, n: nat)
    requires n < |rows| && IsIndexOf(before, rows[..n])
    requires forall p :: p in after <==> p in before || (p.row == rows[n].id && p.bigram in BigramsOf(rows[n].text))
    ensures IsIndexOf(after, rows[..n + 1])
  {
    hide BigramsOf;
    var shorter, longer := rows[..n], rows[..n + 1];
    forall p ensures p in after <==> exists k :: 0 <= k < |longer| && p in PostingsOf(longer[k]) {
      if p in before {
        var k :| 0 <= k < |shorter| && p in PostingsOf(shorter[k]);
        assert longer[k] == shorter[k];
      }
      if k :| 0 <= k < |longer| && p in PostingsOf(longer[k]) {
        assert k < n ==> shorter[k] == longer[k];
        assert p == Posting(p.bigram, p.row);
      }
      if p in after && p !in before { assert p == Posting(p.bigram, p.row) && longer[n] == rows[n]; }
    }
  }

  // ----- counting -----

  function RowIds(rows: seq<Row>): (ids: seq<int>)
    ensures |ids| == |rows| && forall i :: 0 <= i < |ids| ==> ids[i] == rows[i].id
  {
    seq(|rows|, i requires 0 <= i < |rows| => rows[i].id)
  }

  lemma {:induction false} PostingsAreCounted(bigrams: set<string>, id: int)
    ensures |set b | b in bigrams :: Posting(b, id)| == |bigrams|
    decreases |bigrams|
  {
    if bigrams != {} {
      var b :| b in bigrams;
      PostingsAreCounted(bigrams - {b}, id);
      assert (set c | c in bigrams :: Posting(c, id)) ==
        (set c | c in bigrams - {b} :: Posting(c, id)) + {Posting(b, id)};
    } else {
      assert (set b | b in bigrams :: Posting(b, id)) == {};
    }
  }

  /** With distinct row ids no pair is inserted twice: the counts before and after deduplication agree. */
  lemma {:induction false} DistinctRowsCountOnce(table: set<Posting>, rows: seq<Row>)
    requires IsIndexOf(table, rows) && Distinct(RowIds(rows))
    ensures |table| == CountPairs(rows)
    decreases |rows|
  {
    hide BigramsOf;
    if rows == [] {
      assert forall p :: p !in table;
      assert table == {};
    } else {
      var init, last := rows[..|rows| - 1], rows[|rows| - 1];
      var own := PostingsOf(last);
      assert own <= table;
      forall p ensures p in table - own <==> exists k :: 0 <= k < |init| && p in PostingsOf(init[k]) {
        if p in table - own {
          var k :| 0 <= k < |rows| && p in PostingsOf(rows[k]);
          assert init[k] == rows[k];
        }
        if k :| 0 <= k < |init| && p in PostingsOf(init[k]) {
          assert init[k] == rows[k] && p.row == rows[k].id;
        }
      }
      DistinctRowsCountOnce(table - own, init);
      PostingsAreCounted(BigramsOf(last.text), last.id);
      assert table == (table - own) + own;
    }
  }

  // ----- searching -----

  datatype Mode = All | Any

  const MAX_INDEX_BOUND_CANDIDATES: nat := 900
  const MAX_INDEX_QUERY_PARAMETERS: nat := 900

  predicate IsIndexable(term: string) {
    |term| >= 2 && AllChars(term, IsCjk)
  }

  /** `COUNT(DISTINCT bigram)` of a row, over the required bigrams. */
  function CountDistinct(table: set<Posting>, required: set<string>, row: int): nat {
    |set b | b in required && Posting(b, row) in table|
  }

  /** The rows grouped under the required bigrams that have all of them. */
  function RowsWithAll(table: set<Posting>, required: set<string>): set<int> {
    set p | p in table && p.bigram in required && CountDistinct(table, required, p.row) == |required| :: p.row
  }

  /** Candidate rows, or nothing when the caller has to scan every row. */
  function Probe(table: set<Posting>, required: set<string>): Option<set<int>> {
    if |required| > MAX_INDEX_QUERY_PARAMETERS then None
    else
      var rows := RowsWithAll(table, required);
      if |rows| > MAX_INDEX_BOUND_CANDIDATES then None else Some(rows)
  }

  function RequiredBigrams(terms: seq<string>): set<string> {
    if terms == [] then {} else BigramsOf(terms[0]) + RequiredBigrams(terms[1..])
  }

  function ProbeAny(table: set<Posting>, terms: seq<string>, rows: set<int>): Option<set<int>> {
    if terms == [] then Some(rows)
    else
      match Probe(table, BigramsOf(terms[0]))
      case None => None
      case Some(more) =>
        if |rows + more| > MAX_INDEX_BOUND_CANDIDATES then None else ProbeAny(table, terms[1..], rows + more)
  }

  function Candidates(table: set<Posting>, terms: seq<string>, mode: Mode): Option<set<int>> {
    if terms == [] || exists k :: 0 <= k < |terms| && !IsIndexable(terms[k]) then None
    else
      match mode
      case All => Probe(table, RequiredBigrams(terms))
      case Any => ProbeAny(table, terms, {})
  }

  predicate MatchesLiterally(row: Row, terms: seq<string>, mode: Mode) {
    match mode
    case All => forall k :: 0 <= k < |terms| ==> Contains(row.text, terms[k])
    case Any => exists k :: 0 <= k < |terms| && Contains(row.text, terms[k])
  }

  /** The rows a search returns: candidates, or all rows, checked literally. */
  function Search(table: set<Posting>, rows: seq<Row>, terms: seq<string>, mode: Mode): set<int> {
    match Candidates(table, terms, mode)
    case None => set r | r in rows && MatchesLiterally(r, terms, mode) :: r.id
    case Some(ids) => set r | r in rows && r.id in ids && MatchesLiterally(r, terms, mode) :: r.id
  }

  /** A text that contains a term has all of the term's bigrams. */
  lemma ContainedBigrams(text: string, term: string)
    requires Contains(text, term)
    ensures BigramsOf(term) <= BigramsOf(text)
  {
    ContainsMeans(text, term);
    var at: nat :| OccursAt(text, term, at);
    forall b | b in BigramsOf(term) ensures b in BigramsOf(text) {
      var i :| 0 <= i < |term| - 1 && IsBigramAt(term, i) && term[i..i + 2] == b;
      var window := text[at..at + |term|];
      assert window[i] == text[at + i] && window[i + 1] == text[at + i + 1];
      assert text[at + i..at + i + 2] == b;
      assert IsBigramAt(text, at + i);
    }
  }

  /** A count of distinct matches reaches the number of required bigrams iff all of them match. */
  lemma CountReachesAll(table: set<Posting>, required: set<string>, row: int)
    ensures CountDistinct(table, required, row) == |required| <==>
      forall b :: b in required ==> Posting(b, row) in table
  {
    var matched := set b | b in required && Posting(b, row) in table;
    SubsetOfSameSize(matched, required);
    if forall b :: b in required ==> Posting(b, row) in table { assert matched == required; }
  }

  lemma {:induction false} SubsetOfSameSize(a: set<string>, b: set<string>)
    requires a <= b
    ensures |a| == |b| ==> a == b
    decreases |a|
  {
    if a != {} {
      var x :| x in a;
      SubsetOfSameSize(a - {x}, b - {x});
      assert a == (a - {x}) + {x} && b == (b - {x}) + {x};
    }
  }

  /** A row that has every required bigram is among the probed rows. */
  lemma ProbeFinds(table: set<Posting>, rows: seq<Row>, row: Row, required: set<string>)
    requires IsIndexOf(table, rows) && row in rows && required != {} && required <= BigramsOf(row.text)
    ensures row.id in RowsWithAll(table, required)
  {
    hide BigramsOf;
    var k :| 0 <= k < |rows| && rows[k] == row;
    forall b | b in required ensures Posting(b, row.id) in table {
      assert Posting(b, row.id) in PostingsOf(rows[k]);
    }
    CountReachesAll(table, required, row.id);
    var b :| b in required;
    assert Posting(b, row.id) in table;
  }

  lemma IndexableHasBigrams(term: string)
    requires IsIndexable(term)
    ensures BigramsOf(term) != {}
  {
    assert IsBigramAt(term, 0);
    assert term[0..2] in BigramsOf(term);
  }

  lemma {:induction false} RequiredAreContained(text: string, terms: seq<string>)
    requires forall k :: 0 <= k < |terms| ==> Contains(text, terms[k])
    ensures RequiredBigrams(terms) <= BigramsOf(text)
    decreases |terms|
  {
    hide BigramsOf, Find;
    if terms != [] {
      ContainedBigrams(text, terms[0]);
      RequiredAreContained(text, terms[1..]);
    }
  }

  lemma {:induction false} ProbeAnyFinds(
    table: set<Posting>, rows: seq<Row>, row: Row, terms: seq<string>, found: set<int>)
    requires IsIndexOf(table, rows) && row in rows
    requires forall k :: 0 <= k < |terms| ==> IsIndexable(terms[k])
    requires row.id in found || exists k :: 0 <= k < |terms| && Contains(row.text, terms[k])
    ensures ProbeAny(table, terms, found).Some? ==> row.id in ProbeAny(table, terms, found).value
    decreases |terms|
  {
    hide BigramsOf, IsIndexOf, IsIndexable, RowsWithAll, Find;
    if terms != [] {
      if Contains(row.text, terms[0]) {
        ContainedBigrams(row.text, terms[0]);
        IndexableHasBigrams(terms[0]);
        ProbeFinds(table, rows, row, BigramsOf(terms[0]));
      }
      var probe := Probe(table, BigramsOf(terms[0]));
      if probe.Some? {
        ProbeAnyFinds(table, rows, row, terms[1..], found + probe.value);
      }
    }
  }

  /** Searching through the index returns exactly what checking every row would. */
  lemma IndexedSearchIsFullScan(table: set<Posting>, rows: seq<Row>, terms: seq<string>, mode: Mode)
    requires IsIndexOf(table, rows)
    ensures Search(table, rows, terms, mode) == set r | r in rows && MatchesLiterally(r, terms, mode) :: r.id
  {
    hide BigramsOf, IsIndexOf, IsIndexable, RowsWithAll, Find;
    var candidates := Candidates(table, terms, mode);
    if candidates.Some? {
      forall row | row in rows && MatchesLiterally(row, terms, mode) ensures row.id in candidates.value {
        if mode == Any {
          ProbeAnyFinds(table, rows, row, terms, {});
        } else {
          RequiredAreContained(row.text, terms);
          IndexableHasBigrams(terms[0]);
          ProbeFinds(table, rows, row, RequiredBigrams(terms));
        }
      }
    }
  }
}
