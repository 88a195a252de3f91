/** Searching a file for keys block by block, carrying the last 512 bytes from block to block. */
module StreamSearch {
  import opened Wrappers
  import opened Text

  type Bytes = seq<int>

  const TAIL: nat := 512

  function Join(blocks: seq<Bytes>): Bytes {
    if blocks == [] then [] else Join(blocks[..|blocks| - 1]) + blocks[|blocks| - 1]
  }

  /** The last 512 bytes, or everything if there is less. */
  function TailOf(bytes: Bytes): Bytes {
    if |bytes| <= TAIL then bytes else bytes[|bytes| - TAIL..]
  }

  predicate AnyKeyIn(bytes: Bytes, keys: seq<Bytes>) {
    exists k :: 0 <= k < |keys| && Contains(bytes, keys[k])
  }

  /** What the block loop sees from a tail on: some key in the tail joined with the next block. */
  predicate ScanFrom(tail: Bytes, blocks: seq<Bytes>, keys: seq<Bytes>)
    decreases |blocks|
  {
    if blocks == [] then false
    else
      var joined := tail + blocks[0];
      AnyKeyIn(joined, keys) || ScanFrom(TailOf(joined), blocks[1..], keys)
  }

  method Scan(blocks: seq<Bytes>, keys: seq<Bytes>) returns (found: bool, size: nat)
    ensures found == ScanFrom([], blocks, keys)
    ensures !found ==> size == |Join(blocks)|
  {
    var tail: Bytes := [];
    size := 0;
    assert blocks[..0] == [];
    for n := 0 to |blocks|
      invariant ScanFrom(tail, blocks[n..], keys) == ScanFrom([], blocks, keys)
      invariant size == |Join(blocks[..n])|
    {
      var block := blocks[n];
      assert blocks[n..][1..] == blocks[n + 1..] && blocks[..n + 1][..n] == blocks[..n];
      var joined := tail + block;
      if AnyKeyIn(joined, keys) { return true, size; }
      tail := TailOf(joined);
      size := size + |block|;
    }
    assert blocks[..|blocks|] == blocks;
    return false, size;
  }

  /** Front-to-back joining, the way the scan meets the blocks. */
  function JoinFront(blocks: seq<Bytes>): Bytes {
    if blocks == [] then [] else blocks[0] + JoinFront(blocks[1..])
  }

  lemma {:induction false} JoinBothWays(blocks: seq<Bytes>)
    ensures Join(blocks) == JoinFront(blocks)
    decreases |blocks|
  {
    if |blocks| == 1 {
      assert blocks[..0] == [] && blocks[1..] == [];
    } else if |blocks| > 1 {
      var init, middle := blocks[..|blocks| - 1], blocks[1..|blocks| - 1];
      assert blocks[1..][..|blocks| - 2] == middle && init[1..] == middle;
      JoinBothWays(init);
      JoinBothWays(blocks[1..]);
      JoinBothWays(middle);
    }
  }

  ghost predicate OccursIn(bytes: Bytes, key: Bytes) {
    exists i: nat :: OccursAt(bytes, key, i)
  }

  /** An occurrence that ends in the block starts within reach of the carried tail. */
  lemma OccurrenceInJoined(seen: Bytes, block: Bytes, key: Bytes, i: nat)
    requires 1 <= |key| <= TAIL + 1 && OccursAt(seen + block, key, i) && |seen| < i + |key|
    ensures OccursIn(TailOf(seen) + block, key)
  {
    var cut := |seen| - |TailOf(seen)|;
    assert cut <= i;
    assert (seen + block)[cut..] == TailOf(seen) + block;
    OccursInSlice(seen + block, key, cut, |seen| + |block|, i - cut);
    assert (seen + block)[cut..|seen| + |block|] == (seen + block)[cut..];
  }

  lemma OccurrenceInWhole(seen: Bytes, block: Bytes, key: Bytes)
    requires OccursIn(TailOf(seen) + block, key)
    ensures OccursIn(seen + block, key)
  {
    var i: nat :| OccursAt(TailOf(seen) + block, key, i);
    var cut := |seen| - |TailOf(seen)|;
    assert (seen + block)[cut..|seen| + |block|] == TailOf(seen) + block;
    OccursInSlice(seen + block, key, cut, |seen| + |block|, i);
  }

  lemma OccurrenceInLonger(front: Bytes, back: Bytes, key: Bytes)
    requires OccursIn(front, key)
    ensures OccursIn(front + back, key)
  {
    var i: nat :| OccursAt(front, key, i);
    assert (front + back)[i..i + |key|] == front[i..i + |key|];
    assert OccursAt(front + back, key, i);
  }

  /** Tails compose: the tail of the tail joined with a block is the tail of everything seen. */
  lemma TailsCompose(seen: Bytes, block: Bytes)
    ensures TailOf(TailOf(seen) + block) == TailOf(seen + block)
  {
  }

  lemma {:induction false} ScanIsExact(seen: Bytes, blocks: seq<Bytes>, key: Bytes)
    requires 1 <= |key| <= TAIL + 1 && !OccursIn(seen, key)
    ensures ScanFrom(TailOf(seen), blocks, [key]) <==> OccursIn(seen + JoinFront(blocks), key)
    decreases |blocks|
  {
    if blocks == [] {
      assert seen + JoinFront(blocks) == seen;
    } else {
      var block, rest := blocks[0], JoinFront(blocks[1..]);
      assert seen + JoinFront(blocks) == (seen + block) + rest;
      ContainsMeans(TailOf(seen) + block, key);
      AnyOfOne(TailOf(seen) + block, key);
      TailsCompose(seen, block);
      hide TailOf, Contains, AnyKeyIn;
      if OccursIn(TailOf(seen) + block, key) {
        OccurrenceInWhole(seen, block, key);
        OccurrenceInLonger(seen + block, rest, key);
      } else {
        if OccursIn(seen + block, key) {
          var i: nat :| OccursAt(seen + block, key, i);
          if i + |key| <= |seen| {
            OccurrenceInFront(seen, block, key, i);
          } else {
            OccurrenceInJoined(seen, block, key, i);
          }
        }
        ScanIsExact(seen + block, blocks[1..], key);
      }
    }
  }

  lemma OccurrenceInFront(seen: Bytes, block: Bytes, key: Bytes, i: nat)
    requires i + |key| <= |seen|
    ensures OccursAt(seen + block, key, i) <==> OccursAt(seen, key, i)
  {
    assert (seen + block)[i..i + |key|] == seen[i..i + |key|];
  }

  lemma AnyOfOne(bytes: Bytes, key: Bytes)
    ensures AnyKeyIn(bytes, [key]) <==> Contains(bytes, key)
  {
    assert [key][0] == key;
  }

  /** Several keys are found iff one of them is. */
  lemma {:induction false} ScanEachKey(tail: Bytes, blocks: seq<Bytes>, keys: seq<Bytes>)
    ensures ScanFrom(tail, blocks, keys) <==> exists k :: 0 <= k < |keys| && ScanFrom(tail, blocks, [keys[k]])
    decreases |blocks|
  {
    if blocks != [] {
      var joined := tail + blocks[0];
      ScanEachKey(TailOf(joined), blocks[1..], keys);
      forall k | 0 <= k < |keys| ensures AnyKeyIn(joined, [keys[k]]) <==> Contains(joined, keys[k]) {
        AnyOfOne(joined, keys[k]);
      }
      hide TailOf, Contains;
      if AnyKeyIn(joined, keys) {
        var k :| 0 <= k < |keys| && Contains(joined, keys[k]);
        assert ScanFrom(tail, blocks, [keys[k]]);
      }
    }
  }

  /**
   The streamed search is the search of the whole file, for every division into
   blocks and all keys of 1 to 513 bytes.
   */
  lemma StreamedIsWhole(blocks: seq<Bytes>, keys: seq<Bytes>)
    requires forall k :: 0 <= k < |keys| ==> 1 <= |keys[k]| <= TAIL + 1
    ensures ScanFrom([], blocks, keys) <==> AnyKeyIn(Join(blocks), keys)
  {
    JoinBothWays(blocks);
    ScanEachKey([], blocks, keys);
    forall k | 0 <= k < |keys| ensures ScanFrom([], blocks, [keys[k]]) <==> Contains(Join(blocks), keys[k]) {
      assert !OccursIn([], keys[k]);
      ScanIsExact([], blocks, keys[k]);
      assert TailOf([]) == [] && [] + JoinFront(blocks) == JoinFront(blocks);
      ContainsMeans(Join(blocks), keys[k]);
    }
  }

  // ----- the blocks a file is read in -----

  const READ_SIZE: nat := 1_048_576

  /** A file read in full blocks; only the last one may be shorter. */
  function Cut(file: Bytes, size: nat): seq<Bytes>
    requires size > 0
  {
    if file == [] then [] else if |file| <= size then [file] else [file[..size]] + Cut(file[size..], size)
  }

  lemma {:induction false} CutJoins(file: Bytes, size: nat)
    requires size > 0
    ensures JoinFront(Cut(file, size)) == file
    decreases |file|
  {
    if |file| > size {
      CutJoins(file[size..], size);
      assert file == file[..size] + file[size..];
      var blocks := [file[..size]] + Cut(file[size..], size);
      assert blocks[1..] == Cut(file[size..], size);
    } else if file != [] {
      assert [file][1..] == [] && file + [] == file;
    }
  }

  /** A length that fills whole blocks. */
  predicate FillsBlocks(n: nat, size: nat)
    requires size > 0
  {
    n == 0 || (n >= size && FillsBlocks(n - size, size))
  }

  /** How many bytes are missing to the end of the last block. */
  function Missing(n: nat, size: nat): (m: nat)
    requires size > 0
    ensures m <= size && FillsBlocks(n + m, size)
  {
    if n == 0 then 0 else if n <= size then size - n else Missing(n - size, size)
  }

  /** One more byte behind full blocks is a block of its own. */
  lemma {:induction false} CutLastByte(front: Bytes, last: int, size: nat)
    requires size > 0 && FillsBlocks(|front|, size)
    ensures Cut(front + [last], size) == Cut(front, size) + [[last]]
    decreases |front|
  {
    var file := front + [last];
    if front == [] {
      assert file == [last];
    } else {
      assert file[..size] == front[..size] && file[size..] == front[size..] + [last];
      CutLastByte(front[size..], last, size);
      if |front| == size {
        assert front[size..] == [] && front[..size] == front;
      }
    }
  }

  /** The scan finds nothing that is not there, whatever the length of the key. */
  lemma {:induction false} ScanIsSound(seen: Bytes, blocks: seq<Bytes>, key: Bytes)
    requires ScanFrom(TailOf(seen), blocks, [key])
    ensures OccursIn(seen + JoinFront(blocks), key)
    decreases |blocks|
  {
    var block, rest := blocks[0], JoinFront(blocks[1..]);
    assert seen + JoinFront(blocks) == (seen + block) + rest;
    ContainsMeans(TailOf(seen) + block, key);
    AnyOfOne(TailOf(seen) + block, key);
    TailsCompose(seen, block);
    hide TailOf, Contains, AnyKeyIn;
    if OccursIn(TailOf(seen) + block, key) {
      OccurrenceInWhole(seen, block, key);
      OccurrenceInLonger(seen + block, rest, key);
    } else {
      ScanIsSound(seen + block, blocks[1..], key);
    }
  }

  /** Where the key does not occur in front, a last block of one byte is searched behind 512 bytes only. */
  lemma {:induction false} LastByteIsNotEnough(seen: Bytes, blocks: seq<Bytes>, last: int, key: Bytes)
    requires |key| > TAIL + 1 && !OccursIn(seen + JoinFront(blocks), key)
    ensures !ScanFrom(TailOf(seen), blocks + [[last]], [key])
    decreases |blocks|
  {
    var all := blocks + [[last]];
    var joined := TailOf(seen) + all[0];
    AnyOfOne(joined, key);
    ContainsMeans(joined, key);
    if blocks == [] {
      assert all[1..] == [] && |joined| <= TAIL + 1;
    } else {
      var block, rest := blocks[0], JoinFront(blocks[1..]);
      assert all[1..] == blocks[1..] + [[last]];
      assert seen + JoinFront(blocks) == (seen + block) + rest;
      TailsCompose(seen, block);
      hide TailOf, Contains, AnyKeyIn;
      if OccursIn(joined, key) {
        OccurrenceInWhole(seen, block, key);
        OccurrenceInLonger(seen + block, rest, key);
      }
      LastByteIsNotEnough(seen + block, blocks[1..], last, key);
    }
  }

  /** Other bytes in front of a key, so many that its last byte begins a block. */
  function MissedFile(key: Bytes, size: nat): Bytes
    requires key != [] && size > 0
  {
    Padding(key[0], Missing(|key| - 1, size)) + key
  }

  function Padding(unlike: int, n: nat): (pad: Bytes)
    ensures |pad| == n && forall i :: 0 <= i < n ==> pad[i] != unlike
  {
    seq(n, _ => if unlike == 0 then 1 else 0)
  }

  lemma NoKeyInFront(pad: Bytes, key: Bytes)
    requires key != [] && forall i :: 0 <= i < |pad| ==> pad[i] != key[0]
    ensures !OccursIn(pad + key[..|key| - 1], key)
  {
    var front := pad + key[..|key| - 1];
    forall i: nat ensures !OccursAt(front, key, i) {
      if i + |key| <= |front| {
        assert front[i] == pad[i] && front[i..i + |key|][0] == front[i];
      }
    }
  }

  /** Behind full blocks without the key, one more byte cannot complete it. */
  lemma OneMoreByteIsMissed(front: Bytes, last: int, key: Bytes, size: nat)
    requires size > 0 && FillsBlocks(|front|, size) && |key| > TAIL + 1 && !OccursIn(front, key)
    ensures !ScanFrom([], Cut(front + [last], size), [key])
  {
    hide ScanFrom, Cut, JoinFront, OccursIn, FillsBlocks;
    CutLastByte(front, last, size);
    CutJoins(front, size);
    assert TailOf([]) == [] && [] + front == front;
    LastByteIsNotEnough([], Cut(front, size), last, key);
  }

  /** The file for a key: its front fills blocks and does not hold the key, which is there in whole. */
  lemma MissedFileParts(key: Bytes, size: nat) returns (front: Bytes)
    requires key != [] && size > 0
    ensures MissedFile(key, size) == front + [key[|key| - 1]] && FillsBlocks(|front|, size)
    ensures !OccursIn(front, key) && Contains(MissedFile(key, size), key)
  {
    var pad := Padding(key[0], Missing(|key| - 1, size));
    front := pad + key[..|key| - 1];
    hide Missing, Padding, Contains, OccursIn, FillsBlocks;
    NoKeyInFront(pad, key);
    BehindPadding(pad, key);
    assert |front| == |key| - 1 + Missing(|key| - 1, size);
  }

  /** In every block size, a key of more than 513 bytes is missed when only its last byte falls into the last block. */
  lemma LongKeyIsMissed(key: Bytes, size: nat)
    requires |key| > TAIL + 1 && size > 0
    ensures !ScanFrom([], Cut(MissedFile(key, size), size), [key]) && Contains(MissedFile(key, size), key)
  {
    hide MissedFile, ScanFrom, Cut, Contains, OccursIn, FillsBlocks;
    var front := MissedFileParts(key, size);
    OneMoreByteIsMissed(front, key[|key| - 1], key, size);
  }

  lemma BehindPadding(pad: Bytes, key: Bytes)
    ensures Contains(pad + key, key)
  {
    assert OccursAt(pad + key, key, |pad|);
    ContainsMeans(pad + key, key);
  }

  /**
   The bound is exact: reading files in blocks of any one size, the streamed search
   agrees with the whole-file search on every file iff the key has at most 513 bytes.
   */
  lemma KeyLengthIsExact(key: Bytes, size: nat)
    requires key != [] && size > 0
    ensures (forall file :: ScanFrom([], Cut(file, size), [key]) <==> Contains(file, key)) <==> |key| <= TAIL + 1
  {
    if |key| <= TAIL + 1 {
      forall file ensures ScanFrom([], Cut(file, size), [key]) <==> Contains(file, key) {
        StreamedIsWhole(Cut(file, size), [key]);
        JoinBothWays(Cut(file, size));
        CutJoins(file, size);
        AnyOfOne(file, key);
      }
    } else {
      LongKeyIsMissed(key, size);
    }
  }

  /** Reads a file block by block: with keys of 1 to 513 bytes the search is the search of the whole file. */
  method ScanFile(file: Bytes, keys: seq<Bytes>) returns (found: bool, size: nat)
    ensures found == ScanFrom([], Cut(file, READ_SIZE), keys)
    ensures (forall k :: 0 <= k < |keys| ==> 1 <= |keys[k]| <= TAIL + 1) ==> found == AnyKeyIn(file, keys)
    ensures !found ==> size == |file|
  {
    hide ScanFrom, AnyKeyIn, Cut;
    CutJoins(file, READ_SIZE);
    JoinBothWays(Cut(file, READ_SIZE));
    found, size := Scan(Cut(file, READ_SIZE), keys);
    if forall k :: 0 <= k < |keys| ==> 1 <= |keys[k]| <= TAIL + 1 {
      StreamedIsWhole(Cut(file, READ_SIZE), keys);
    }
  }
}
