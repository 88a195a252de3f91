/**
 Text as sequences of Unicode scalar values, with the string operations the
 Rust sources lean on: trimming, first occurrence, containment, replacement.
 Offsets are counted in characters; the source counts UTF-8 bytes, always on
 character boundaries.
 */
module Text {
  import opened Wrappers

  // ----- character classes -----

  /** The Unicode White_Space property. */
  predicate IsWhitespace(c: char) {
    || '\U{9}' <= c <= '\U{D}'
    || '\U{2000}' <= c <= '\U{200A}'
    || c in "\U{20}\U{85}\U{A0}\U{1680}\U{2028}\U{2029}\U{202F}\U{205F}\U{3000}"
  }

  predicate IsAsciiDigit(c: char) {
    '0' <= c <= '9'
  }

  predicate IsAsciiAlphanumeric(c: char) {
    IsAsciiDigit(c) || 'a' <= c <= 'z' || 'A' <= c <= 'Z'
  }

  /** The Unicode alphanumeric class stays abstract; it contains no whitespace. */
  type Alphanumeric = f: char -> bool | forall c: char :: IsWhitespace(c) ==> !f(c)
    witness (c: char) => false

  predicate WhitespaceBetween(s: string, lo: nat, hi: nat)
    requires lo <= hi <= |s|
  {
    forall i :: lo <= i < hi ==> IsWhitespace(s[i])
  }

  // ----- trimming -----

  function TrimStartWhile(s: string, p: char -> bool): (r: string)
    ensures |r| <= |s| && r == s[|s| - |r|..]
    ensures forall i :: 0 <= i < |s| - |r| ==> p(s[i])
    ensures r != [] ==> !p(r[0])
  {
    if s != [] && p(s[0]) then
      var tail := s[1..];
      var r := TrimStartWhile(tail, p);
      assert forall i :: 1 <= i < |s| ==> s[i] == tail[i - 1];
      assert tail[|tail| - |r|..] == s[|s| - |r|..];
      r
    else s
  }

  function TrimEndWhile(s: string, p: char -> bool): (r: string)
    ensures |r| <= |s| && r == s[..|r|]
    ensures forall i :: |r| <= i < |s| ==> p(s[i])
    ensures r != [] ==> !p(r[|r| - 1])
  {
    if s != [] && p(s[|s| - 1]) then
      var init := s[..|s| - 1];
      var r := TrimEndWhile(init, p);
      assert forall i :: 0 <= i < |init| ==> s[i] == init[i];
      assert init[..|r|] == s[..|r|];
      r
    else s
  }

  function TrimWhile(s: string, p: char -> bool): string {
    TrimEndWhile(TrimStartWhile(s, p), p)
  }

  function TrimStart(s: string): string {
    TrimStartWhile(s, IsWhitespace)
  }

  function Trim(s: string): string {
    TrimWhile(s, IsWhitespace)
  }

  /** What trimming removes is whitespace, on both sides. */
  lemma TrimSplits(s: string) returns (lead: nat)
    ensures lead + |Trim(s)| <= |s| && Trim(s) == s[lead..lead + |Trim(s)|]
    ensures WhitespaceBetween(s, 0, lead) && WhitespaceBetween(s, lead + |Trim(s)|, |s|)
    ensures Trim(s) != [] ==> !IsWhitespace(Trim(s)[0]) && !IsWhitespace(Trim(s)[|Trim(s)| - 1])
  {
    var left := TrimStart(s);
    lead := |s| - |left|;
    forall i | lead + |Trim(s)| <= i < |s| ensures IsWhitespace(s[i]) {
      assert s[i] == left[i - lead];
    }
  }

  /** A string that neither starts nor ends with whitespace is its own trimming. */
  lemma TrimFixed(s: string)
    requires s != [] ==> !IsWhitespace(s[0]) && !IsWhitespace(s[|s| - 1])
    ensures Trim(s) == s
  {
  }

  lemma TrimTwice(s: string)
    ensures Trim(Trim(s)) == Trim(s)
  {
    var left := TrimStart(s);
    if Trim(s) != [] {
      assert Trim(s)[0] == left[0];
      TrimFixed(Trim(s));
    }
  }

  // ----- occurrences -----

  predicate OccursAt<T(==)>(s: seq<T>, pat: seq<T>, i: nat) {
    i + |pat| <= |s| && s[i..i + |pat|] == pat
  }

  /** The first occurrence of `pat` at or after `from`. */
  function Find<T(==)>(s: seq<T>, pat: seq<T>, from: nat): (r: Option<nat>)
    ensures r.Some? ==> from <= r.value && r.value + |pat| <= |s|
    decreases |s| - from
  {
    if from + |pat| > |s| then None
    else if OccursAt(s, pat, from) then Some(from)
    else Find(s, pat, from + 1)
  }

  /** `Find` yields the least occurrence, or there is none. */
  lemma {:induction false} FindMeans<T>(s: seq<T>, pat: seq<T>, from: nat)
    ensures Find(s, pat, from).Some? ==> OccursAt(s, pat, Find(s, pat, from).value)
    ensures forall j: nat :: from <= j && (Find(s, pat, from).Some? ==> j < Find(s, pat, from).value) ==>
      !OccursAt(s, pat, j)
    decreases |s| - from
  {
    if from + |pat| <= |s| && !OccursAt(s, pat, from) {
      FindMeans(s, pat, from + 1);
    }
  }

  predicate Contains<T(==)>(s: seq<T>, pat: seq<T>) {
    Find(s, pat, 0).Some?
  }

  /** Containment means an occurrence exists. */
  lemma ContainsMeans<T>(s: seq<T>, pat: seq<T>)
    ensures Contains(s, pat) <==> exists i: nat :: OccursAt(s, pat, i)
  {
    FindMeans(s, pat, 0);
  }

  /** An occurrence in a slice is an occurrence in the whole, and conversely. */
  lemma OccursInSlice<T>(s: seq<T>, pat: seq<T>, lo: nat, hi: nat, i: nat)
    requires lo <= hi <= |s|
    ensures OccursAt(s[lo..hi], pat, i) <==> lo + i + |pat| <= hi && OccursAt(s, pat, lo + i)
  {
    var slice := s[lo..hi];
    if i + |pat| <= |slice| {
      var left, right := slice[i..i + |pat|], s[lo + i..lo + i + |pat|];
      assert forall k :: 0 <= k < |pat| ==> left[k] == slice[i + k] && right[k] == s[lo + (i + k)];
      assert left == right;
    }
  }

  /** Searching a suffix is searching the whole text from the cut. */
  lemma FindInSuffix<T>(s: seq<T>, pat: seq<T>, cut: nat, from: nat)
    requires cut <= |s|
    ensures Find(s[cut..], pat, from).Some? <==> Find(s, pat, cut + from).Some?
    ensures Find(s[cut..], pat, from).Some? ==>
      Find(s, pat, cut + from).value == cut + Find(s[cut..], pat, from).value
  {
    var a, b := Find(s[cut..], pat, from), Find(s, pat, cut + from);
    FindMeans(s[cut..], pat, from);
    FindMeans(s, pat, cut + from);
    assert s[cut..] == s[cut..|s|];
    if a.Some? {
      OccursInSlice(s, pat, cut, |s|, a.value);
      assert b.Some? && b.value <= cut + a.value;
    }
    if b.Some? {
      OccursInSlice(s, pat, cut, |s|, b.value - cut);
    }
  }

  /** A one-character pattern occurs exactly where the character stands. */
  lemma OccursChar(s: string, c: char, i: nat)
    ensures OccursAt(s, [c], i) <==> i < |s| && s[i] == c
  {
    if i < |s| {
      assert s[i..i + 1] == [s[i]];
    }
  }

  /** Searching one character finds its first offset, if it is there at all. */
  lemma FindChar(s: string, c: char)
    ensures var found := Find(s, [c], 0);
      if found.None? then c !in s
      else c !in s[..found.value] && s == s[..found.value] + [c] + s[found.value + 1..]
  {
    var found := Find(s, [c], 0);
    FirstChar(s, c);
    hide Find;
    if found.Some? {
      assert s[found.value..] == [s[found.value]] + s[found.value + 1..];
      assert s == s[..found.value] + s[found.value..];
    }
  }

  lemma FirstChar(s: string, c: char)
    ensures var found := Find(s, [c], 0);
      && (found.Some? ==> s[found.value] == c)
      && forall j: nat :: j < |s| && (found.Some? ==> j < found.value) ==> s[j] != c
  {
    FindMeans(s, [c], 0);
    hide Find, OccursAt;
    var found := Find(s, [c], 0);
    if found.Some? { OccursChar(s, c, found.value); }
    forall j: nat | j < |s| && (found.Some? ==> j < found.value) ensures s[j] != c {
      OccursChar(s, c, j);
      assert !OccursAt(s, [c], j);
    }
  }

  /** The last offset of a character. */
  function RFind(s: string, c: char): (r: Option<nat>)
    ensures r.Some? ==> r.value < |s| && s[r.value] == c && forall j :: r.value < j < |s| ==> s[j] != c
    ensures r.None? ==> c !in s
  {
    if s == [] then None
    else if s[|s| - 1] == c then Some(|s| - 1)
    else RFind(s[..|s| - 1], c)
  }

  predicate StartsWith<T(==)>(s: seq<T>, prefix: seq<T>) {
    prefix <= s
  }

  predicate EndsWith<T(==)>(s: seq<T>, suffix: seq<T>) {
    |suffix| <= |s| && s[|s| - |suffix|..] == suffix
  }

  predicate ContainsAny(s: string, pats: seq<string>) {
    exists k :: 0 <= k < |pats| && Contains(s, pats[k])
  }

  predicate StartsWithAny(s: string, pats: seq<string>) {
    exists k :: 0 <= k < |pats| && StartsWith(s, pats[k])
  }

  type Word = w: string | w != [] witness "x"

  /** Deletes every left-to-right, non-overlapping occurrence of a pattern. */
  function Erase(s: string, pat: Word): (r: string)
    ensures |r| <= |s|
    decreases |s|
  {
    match Find(s, pat, 0)
    case None => s
    case Some(i) => s[..i] + Erase(s[i + |pat|..], pat)
  }

  /** Pieces with a pattern between them, and pieces without anything between them. */
  function Joined(pieces: seq<string>, pat: string): string {
    if pieces == [] then [] else if |pieces| == 1 then pieces[0] else pieces[0] + pat + Joined(pieces[1..], pat)
  }

  /** The pattern put behind the piece occurs there first. */
  ghost predicate IsFree(piece: string, pat: string) {
    forall j: nat :: j < |piece| ==> !OccursAt(piece + pat, pat, j)
  }

  /** The pieces a text falls into at the occurrences of a pattern, each the first one after the last. */
  ghost predicate ArePieces(s: string, pat: string, pieces: seq<string>) {
    && pieces != [] && s == Joined(pieces, pat)
    && (forall k :: 0 <= k < |pieces| - 1 ==> IsFree(pieces[k], pat))
    && !Contains(pieces[|pieces| - 1], pat)
  }

  /** Erasing a pattern leaves the pieces between its occurrences. */
  lemma {:induction false} EraseMeans(s: string, pat: Word) returns (pieces: seq<string>)
    ensures ArePieces(s, pat, pieces) && Erase(s, pat) == Joined(pieces, [])
    decreases |s|
  {
    match Find(s, pat, 0) {
      case None =>
        pieces := [s];
      case Some(i) =>
        hide Find, OccursAt, ArePieces, IsFree;
        var rest := EraseMeans(s[i + |pat|..], pat);
        FrontIsFree(s, pat, i);
        PieceInFront(s[..i], s[i + |pat|..], pat, rest);
        pieces := [s[..i]] + rest;
    }
  }

  lemma PieceInFront(front: string, back: string, pat: string, rest: seq<string>)
    requires ArePieces(back, pat, rest) && IsFree(front, pat)
    ensures ArePieces(front + pat + back, pat, [front] + rest)
    ensures Joined([front] + rest, []) == front + Joined(rest, [])
  {
    hide IsFree, Contains;
    var pieces := [front] + rest;
    assert pieces[1..] == rest;
    assert front + [] == front;
  }

  lemma FrontIsFree(s: string, pat: string, i: nat)
    requires Find(s, pat, 0) == Some(i)
    ensures s == s[..i] + pat + s[i + |pat|..] && IsFree(s[..i], pat)
  {
    FindMeans(s, pat, 0);
    assert s[..i] + pat == s[0..i + |pat|];
    hide Find;
    forall j: nat | j < i ensures !OccursAt(s[..i] + pat, pat, j) { OccursInSlice(s, pat, 0, i + |pat|, j); }
  }

  /** There is one way to cut a text into such pieces, so erasing is what it is said to be. */
  lemma {:induction false} PiecesAreErased(s: string, pat: Word, pieces: seq<string>)
    requires ArePieces(s, pat, pieces)
    ensures Erase(s, pat) == Joined(pieces, [])
    decreases |pieces|
  {
    if |pieces| == 1 {
      assert s == pieces[0];
    } else {
      var front, rest := pieces[0], pieces[1..];
      var back := Joined(rest, pat);
      assert s == front + pat + back;
      FirstAfterFree(front, back, pat);
      assert ArePieces(back, pat, rest) by { hide IsFree, Contains, Find; }
      PiecesAreErased(back, pat, rest);
      assert s[..|front|] == front && s[|front| + |pat|..] == back;
      assert front + [] == front;
    }
  }

  lemma FirstAfterFree(front: string, back: string, pat: string)
    requires IsFree(front, pat)
    ensures Find(front + pat + back, pat, 0) == Some(|front|)
  {
    var s := front + pat + back;
    assert s[..|front| + |pat|] == front + pat && s[|front|..|front| + |pat|] == pat;
    FindMeans(s, pat, 0);
    hide Find;
    forall j: nat | j < |front| ensures !OccursAt(s, pat, j) { OccursInSlice(s, pat, 0, |front| + |pat|, j); }
    assert OccursAt(s, pat, |front|);
  }

  function EraseAll(s: string, pats: seq<Word>): string
    decreases |pats|
  {
    if pats == [] then s else EraseAll(Erase(s, pats[0]), pats[1..])
  }

  predicate AnyChar(s: string, p: char -> bool) {
    exists i :: 0 <= i < |s| && p(s[i])
  }

  predicate AllChars(s: string, p: char -> bool) {
    forall i :: 0 <= i < |s| ==> p(s[i])
  }

  function FilterChars(s: string, p: char -> bool): string {
    if s == [] then [] else (if p(s[0]) then [s[0]] else []) + FilterChars(s[1..], p)
  }

  // ----- order -----

  /** The order of strings, in Rust and in SQLite's binary collation. */
  predicate LexLe(a: string, b: string) {
    if a == [] then true
    else if b == [] then false
    else if a[0] == b[0] then LexLe(a[1..], b[1..])
    else a[0] < b[0]
  }

  lemma {:induction false} LexReflexive(a: string)
    ensures LexLe(a, a)
    decreases |a|
  {
    if a != [] { LexReflexive(a[1..]); }
  }

  lemma {:induction false} LexTotal(a: string, b: string)
    ensures LexLe(a, b) || LexLe(b, a)
    ensures LexLe(a, b) && LexLe(b, a) ==> a == b
    decreases |a|
  {
    if a != [] && b != [] && a[0] == b[0] {
      LexTotal(a[1..], b[1..]);
      assert a == [a[0]] + a[1..] && b == [b[0]] + b[1..];
    }
  }

  lemma {:induction false} LexTransitive(a: string, b: string, c: string)
    requires LexLe(a, b) && LexLe(b, c)
    ensures LexLe(a, c)
    decreases |a|
  {
    if a != [] && b != [] && c != [] && a[0] == b[0] == c[0] {
      LexTransitive(a[1..], b[1..], c[1..]);
    }
  }
}
