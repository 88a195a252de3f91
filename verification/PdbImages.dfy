/** The reader accepts exactly the images that hold the streams it returns, and inverts a writer. */
module PdbImages {
  import opened Wrappers
  import opened PdbContainer

  // ----- numbers -----

  function U32Bytes(n: nat): (b: Bytes)
    requires n <= NIL_STREAM
    ensures |b| == 4
  {
    [n % 0x100, (n / 0x100) % 0x100, (n / 0x1_0000) % 0x100, n / 0x100_0000]
  }

  lemma U32RoundTrip(n: nat)
    requires n <= NIL_STREAM
    ensures LittleEndian(U32Bytes(n)) == n
  {
    var a, b := n / 0x100, n / 0x1_0000;
    assert n == 0x100 * a + n % 0x100 && a == 0x100 * b + a % 0x100;
  }

  lemma U32BytesOfRead(b: Bytes)
    requires |b| == 4
    ensures U32Bytes(LittleEndian(b)) == b
  {
    var n := LittleEndian(b);
    assert n / 0x100 == (b[1] as int) + 0x100 * (b[2] as int) + 0x1_0000 * (b[3] as int);
    assert n / 0x1_0000 == (b[2] as int) + 0x100 * (b[3] as int);
    assert n / 0x100_0000 == b[3] as int;
  }

  ghost predicate AreU32(xs: seq<nat>) {
    forall i :: 0 <= i < |xs| ==> xs[i] <= NIL_STREAM
  }

  function EncodeAll(xs: seq<nat>): (b: Bytes)
    requires AreU32(xs)
    ensures |b| == 4 * |xs|
  {
    if xs == [] then [] else U32Bytes(xs[0]) + EncodeAll(xs[1..])
  }

  /** `data` has `content` at an offset. */
  ghost predicate HasAt(data: Bytes, offset: nat, content: Bytes) {
    offset + |content| <= |data| && data[offset..offset + |content|] == content
  }

  lemma HasAtConcat(data: Bytes, offset: nat, a: Bytes, b: Bytes)
    ensures HasAt(data, offset, a + b) <==> HasAt(data, offset, a) && HasAt(data, offset + |a|, b)
  {
    if offset + |a| + |b| <= |data| {
      var whole := data[offset..offset + |a| + |b|];
      assert whole[..|a|] == data[offset..offset + |a|];
      assert whole[|a|..] == data[offset + |a|..offset + |a| + |b|];
      assert (a + b)[..|a|] == a && (a + b)[|a|..] == b;
      assert whole == whole[..|a|] + whole[|a|..];
    }
  }

  /** Reading a list of numbers is finding its encoding. */
  lemma {:induction false} U32ListIsExact(data: Bytes, offset: nat, xs: seq<nat>)
    requires offset <= |data|
    ensures U32List(data, offset, |xs|) == Ok(xs) <==> AreU32(xs) && HasAt(data, offset, EncodeAll(xs))
    decreases |xs|
  {
    if xs == [] {
      assert data[offset..offset] == [];
    } else {
      U32IsExact(data, offset, xs[0]);
      hide U32, U32Bytes, LittleEndian;
      assert xs == [xs[0]] + xs[1..];
      if AreU32(xs) {
        assert AreU32(xs[1..]);
        HasAtConcat(data, offset, U32Bytes(xs[0]), EncodeAll(xs[1..]));
      }
      if offset + 4 <= |data| {
        U32ListIsExact(data, offset + 4, xs[1..]);
      }
    }
  }

  lemma U32IsExact(data: Bytes, offset: nat, x: nat)
    ensures U32(data, offset) == Ok(x) <==> x <= NIL_STREAM && HasAt(data, offset, U32Bytes(x))
  {
    if x <= NIL_STREAM { U32RoundTrip(x); }
    if offset + 4 <= |data| { U32BytesOfRead(data[offset..offset + 4]); }
    hide U32Bytes, LittleEndian;
  }

  // ----- blocks -----

  /** The part of the content that fits the first block. */
  function Chunk(content: Bytes, blockSize: nat): Bytes {
    if |content| <= blockSize then content else content[..blockSize]
  }

  function Rest(content: Bytes, blockSize: nat): Bytes {
    if |content| <= blockSize then [] else content[blockSize..]
  }

  /** The blocks hold the content chunk by chunk, with as many whole blocks as it takes. */
  ghost predicate Holds(data: Bytes, blockSize: nat, blocks: seq<nat>, content: Bytes)
    requires blockSize > 0
    decreases |blocks|
  {
    if content == [] then blocks == []
    else
      && blocks != []
      && (blocks[0] + 1) * blockSize <= |data|
      && HasAt(data, blocks[0] * blockSize, Chunk(content, blockSize))
      && Holds(data, blockSize, blocks[1..], Rest(content, blockSize))
  }

  lemma CeilDivSteps(n: nat, d: nat)
    requires d > 0
    ensures n == 0 ==> CeilDiv(n, d) == 0
    ensures 1 <= n <= d ==> CeilDiv(n, d) == 1
    ensures n > d ==> CeilDiv(n, d) == 1 + CeilDiv(n - d, d)
  {
    if n == 0 {
      DivIs(d - 1, d, 0, d - 1);
    } else if n <= d {
      DivIs(n + d - 1, d, 1, n - 1);
    } else {
      DivPlus(n - 1, d);
      assert n - d + d - 1 == n - 1;
    }
  }

  lemma DivPlus(m: nat, d: nat)
    requires d > 0
    ensures (m + d) / d == m / d + 1
  {
    var q, r := m / d, m % d;
    assert (q + 1) * d == q * d + d;
    DivIs(m + d, d, q + 1, r);
  }

  lemma DivIs(n: nat, d: nat, q: nat, r: nat)
    requires d > 0 && r < d && n == q * d + r
    ensures n / d == q
  {
    if n / d < q { assert (n / d + 1) * d <= q * d by { MulMono(n / d + 1, q, d); } }
    if n / d > q { assert (q + 1) * d <= (n / d) * d by { MulMono(q + 1, n / d, d); } }
  }

  lemma MulMono(a: nat, b: nat, d: nat)
    requires a <= b
    ensures a * d <= b * d
  {
  }

  lemma PrefixSplits(content: Bytes, blockSize: nat, block: Bytes, tail: Bytes)
    requires |block| == blockSize
    ensures content <= block + tail <==> Chunk(content, blockSize) <= block && Rest(content, blockSize) <= tail
  {
    var whole := block + tail;
    if |content| <= blockSize {
      assert whole[..|content|] == block[..|content|];
    } else if |content| <= |whole| {
      assert whole[..|content|] == block + tail[..|content| - blockSize];
      assert content == content[..blockSize] + content[blockSize..];
      if content <= whole {
        assert content[..blockSize] == block;
        assert content[blockSize..] == tail[..|content| - blockSize];
      }
    }
  }

  /** The first block of a gathered list. */
  lemma GatherOne(data: Bytes, blockSize: nat, blocks: seq<nat>)
    requires blocks != []
    ensures var at := blocks[0] * blockSize;
      var tail := GatherBlocks(data, blockSize, blocks[1..]);
      GatherBlocks(data, blockSize, blocks) ==
      if at + blockSize <= |data| && tail.Ok? then Ok(data[at..at + blockSize] + tail.value) else Err(Truncated)
  {
  }

  lemma HasAtInBlock(data: Bytes, at: nat, size: nat, chunk: Bytes)
    requires at + size <= |data| && |chunk| <= size
    ensures HasAt(data, at, chunk) <==> chunk <= data[at..at + size]
  {
    var block := data[at..at + size];
    assert block[..|chunk|] == data[at..at + |chunk|];
  }

  /** Gathering as many blocks as ceiling division says yields the content iff the blocks hold it. */
  lemma {:induction false} GatherIsExact(data: Bytes, blockSize: nat, blocks: seq<nat>, content: Bytes)
    requires blockSize > 0
    ensures (&& |blocks| == CeilDiv(|content|, blockSize)
             && GatherBlocks(data, blockSize, blocks).Ok?
             && content <= GatherBlocks(data, blockSize, blocks).value)
       <==> Holds(data, blockSize, blocks, content)
    decreases |blocks|
  {
    CeilDivSteps(|content|, blockSize);
    hide CeilDiv, GatherBlocks, HasAt, Chunk;
    if content == [] {
      if blocks == [] { GatherNothing(data, blockSize); }
    } else if blocks != [] {
      var rest := Rest(content, blockSize);
      GatherIsExact(data, blockSize, blocks[1..], rest);
      GatherOne(data, blockSize, blocks);
      CeilDivSteps(|rest|, blockSize);
      var at := blocks[0] * blockSize;
      assert (blocks[0] + 1) * blockSize == at + blockSize;
      var tail := GatherBlocks(data, blockSize, blocks[1..]);
      assert |Chunk(content, blockSize)| <= blockSize by { ChunkFits(content, blockSize); }
      if at + blockSize <= |data| {
        HasAtInBlock(data, at, blockSize, Chunk(content, blockSize));
        if tail.Ok? { PrefixSplits(content, blockSize, data[at..at + blockSize], tail.value); }
      }
    }
  }

  lemma ChunkFits(content: Bytes, blockSize: nat)
    ensures |Chunk(content, blockSize)| <= blockSize
  {
  }

  // ----- images -----

  datatype Layout = Layout(
    blockSize: nat, mapAddress: nat, directory: Bytes, directoryBlocks: seq<nat>, streamBlocks: seq<seq<nat>>)

  function SizesOf(streams: seq<Option<Bytes>>): (sizes: seq<nat>)
    ensures |sizes| == |streams|
  {
    if streams == [] then []
    else [if streams[0].Some? then |streams[0].value| else NIL_STREAM] + SizesOf(streams[1..])
  }

  /** One stream: the directory lists its blocks at `offset`, and the blocks hold it. */
  ghost predicate StreamAt(data: Bytes, blockSize: nat, directory: Bytes, offset: nat, stream: Bytes, blocks: seq<nat>)
    requires blockSize > 0
  {
    && |stream| < NIL_STREAM
    && AreU32(blocks) && HasAt(directory, offset, EncodeAll(blocks))
    && Holds(data, blockSize, blocks, stream)
  }

  /** The directory lists, from `offset` on, the blocks of each present stream. */
  ghost predicate StreamsAt(
    data: Bytes, blockSize: nat, directory: Bytes, offset: nat, streams: seq<Option<Bytes>>, lists: seq<seq<nat>>)
    requires blockSize > 0
    decreases |streams|
  {
    && |lists| == |streams|
    && (streams != [] ==>
          && (match streams[0]
              case None => lists[0] == []
              case Some(stream) => StreamAt(data, blockSize, directory, offset, stream, lists[0]))
          && StreamsAt(data, blockSize, directory, offset + 4 * |lists[0]|, streams[1..], lists[1..]))
  }

  ghost predicate HasHeader(data: Bytes, blockSize: nat, directoryBytes: nat, mapAddress: nat) {
    && blockSize <= NIL_STREAM && directoryBytes <= NIL_STREAM && mapAddress <= NIL_STREAM
    && SIGNATURE <= data
    && HasAt(data, 32, U32Bytes(blockSize))
    && HasAt(data, 44, U32Bytes(directoryBytes))
    && HasAt(data, 52, U32Bytes(mapAddress))
  }

  /** The directory gives the number of streams, their sizes and their blocks. */
  ghost predicate DirectoryLists(
    data: Bytes, blockSize: nat, directory: Bytes, streams: seq<Option<Bytes>>, lists: seq<seq<nat>>)
    requires blockSize > 0
  {
    && |streams| <= MAX_STREAMS
    && HasAt(directory, 0, U32Bytes(|streams|))
    && AreU32(SizesOf(streams)) && HasAt(directory, 4, EncodeAll(SizesOf(streams)))
    && StreamsAt(data, blockSize, directory, 4 + 4 * |streams|, streams, lists)
  }

  /** `data` is an image that holds the streams, laid out as described. */
  ghost predicate Encodes(data: Bytes, layout: Layout, streams: seq<Option<Bytes>>) {
    var bs := layout.blockSize;
    && 512 <= bs <= 65_536 && |layout.directory| <= MAX_DIRECTORY_BYTES
    && HasHeader(data, bs, |layout.directory|, layout.mapAddress)
    && AreU32(layout.directoryBlocks)
    && HasAt(data, layout.mapAddress * bs, EncodeAll(layout.directoryBlocks))
    && Holds(data, bs, layout.directoryBlocks, layout.directory)
    && DirectoryLists(data, bs, layout.directory, streams, layout.streamBlocks)
  }

  // ----- streams -----

  lemma {:induction false} GatherLength(data: Bytes, blockSize: nat, blocks: seq<nat>)
    ensures GatherBlocks(data, blockSize, blocks).Ok? ==>
      |GatherBlocks(data, blockSize, blocks).value| == |blocks| * blockSize
    decreases |blocks|
  {
    if blocks != [] {
      GatherLength(data, blockSize, blocks[1..]);
      assert |blocks| * blockSize == blockSize + |blocks[1..]| * blockSize;
    }
  }

  lemma CeilDivCovers(n: nat, d: nat)
    requires d > 0
    ensures n <= CeilDiv(n, d) * d
  {
    var q, r := (n + d - 1) / d, (n + d - 1) % d;
    assert n + d - 1 == q * d + r;
  }

  /** A stream is read iff the directory lists blocks that hold it; it has the declared size. */
  lemma ReadStreamIsExact(data: Bytes, blockSize: nat, directory: Bytes, size: nat, offset: nat, stream: Bytes)
    requires blockSize > 0 && offset <= |directory| && size < NIL_STREAM
    ensures ReadStream(data, blockSize, directory, size, offset) == Ok(stream) <==>
      size == |stream| && exists blocks :: StreamAt(data, blockSize, directory, offset, stream, blocks)
    ensures forall blocks :: size == |stream| && StreamAt(data, blockSize, directory, offset, stream, blocks) ==>
      |blocks| == CeilDiv(size, blockSize)
  {
    hide U32List, GatherBlocks, EncodeAll, HasAt, CeilDiv, Holds, AreU32;
    if ReadStream(data, blockSize, directory, size, offset) == Ok(stream) {
      var blocks := U32List(directory, offset, CeilDiv(size, blockSize)).value;
      U32ListIsExact(directory, offset, blocks);
      GatherLength(data, blockSize, blocks);
      CeilDivCovers(size, blockSize);
      GatherIsExact(data, blockSize, blocks, stream);
      assert StreamAt(data, blockSize, directory, offset, stream, blocks);
    }
    forall blocks | size == |stream| && StreamAt(data, blockSize, directory, offset, stream, blocks)
      ensures |blocks| == CeilDiv(size, blockSize)
      ensures ReadStream(data, blockSize, directory, size, offset) == Ok(stream)
    {
      GatherIsExact(data, blockSize, blocks, stream);
      U32ListIsExact(directory, offset, blocks);
      ListFits(directory, offset, blocks);
      var bytes := GatherBlocks(data, blockSize, blocks).value;
      assert bytes[..size] == stream;
    }
  }

  lemma ListFits(directory: Bytes, offset: nat, blocks: seq<nat>)
    requires AreU32(blocks) && HasAt(directory, offset, EncodeAll(blocks))
    ensures offset + 4 * |blocks| <= |directory|
  {
  }

  lemma {:induction false} StreamsAreComplete(
    data: Bytes, blockSize: nat, directory: Bytes, offset: nat, streams: seq<Option<Bytes>>, lists: seq<seq<nat>>)
    requires blockSize > 0 && offset <= |directory|
    requires StreamsAt(data, blockSize, directory, offset, streams, lists)
    ensures ReadStreams(data, blockSize, directory, SizesOf(streams), offset) == Ok(streams)
    decreases |streams|
  {
    hide ReadStream, StreamAt, CeilDiv;
    if streams != [] {
      var sizes := SizesOf(streams);
      assert sizes[1..] == SizesOf(streams[1..]);
      assert streams == [streams[0]] + streams[1..];
      match streams[0] {
        case None =>
          StreamsAreComplete(data, blockSize, directory, offset, streams[1..], lists[1..]);
        case Some(stream) =>
          StreamIsBounded(data, blockSize, directory, offset, stream, lists[0]);
          ReadStreamIsExact(data, blockSize, directory, |stream|, offset, stream);
          StreamsAreComplete(data, blockSize, directory, offset + 4 * |lists[0]|, streams[1..], lists[1..]);
      }
    }
  }

  lemma StreamIsBounded(data: Bytes, blockSize: nat, directory: Bytes, offset: nat, stream: Bytes, blocks: seq<nat>)
    requires blockSize > 0 && StreamAt(data, blockSize, directory, offset, stream, blocks)
    ensures |stream| < NIL_STREAM && offset + 4 * |blocks| <= |directory|
  {
  }

  /** One unfolding of a successful read. */
  lemma FirstStreamRead(
    data: Bytes, blockSize: nat, directory: Bytes, offset: nat, sizes: seq<nat>, streams: seq<Option<Bytes>>)
    requires blockSize > 0
    requires ReadStreams(data, blockSize, directory, sizes, offset) == Ok(streams)
    ensures sizes == [] <==> streams == []
    ensures sizes != [] ==> (streams[0].None? <==> sizes[0] == NIL_STREAM)
    ensures sizes != [] && streams[0].None? ==>
      ReadStreams(data, blockSize, directory, sizes[1..], offset) == Ok(streams[1..])
    ensures sizes != [] && streams[0].Some? ==>
      && ReadStream(data, blockSize, directory, sizes[0], offset) == Ok(streams[0].value)
      && ReadStreams(data, blockSize, directory, sizes[1..], offset + 4 * CeilDiv(sizes[0], blockSize)) ==
        Ok(streams[1..])
  {
    hide ReadStream, CeilDiv;
  }

  lemma {:induction false} StreamsAreSound(
    data: Bytes, blockSize: nat, directory: Bytes, offset: nat, sizes: seq<nat>, streams: seq<Option<Bytes>>)
    returns (lists: seq<seq<nat>>)
    requires blockSize > 0 && offset <= |directory| && AreU32(sizes)
    requires ReadStreams(data, blockSize, directory, sizes, offset) == Ok(streams)
    ensures sizes == SizesOf(streams) && StreamsAt(data, blockSize, directory, offset, streams, lists)
    decreases |sizes|
  {
    hide ReadStream, ReadStreams, StreamAt, CeilDiv;
    FirstStreamRead(data, blockSize, directory, offset, sizes, streams);
    if sizes == [] {
      lists := [];
    } else {
      var blocks := [];
      if streams[0].Some? {
        var stream := streams[0].value;
        ReadStreamIsExact(data, blockSize, directory, sizes[0], offset, stream);
        blocks :| StreamAt(data, blockSize, directory, offset, stream, blocks);
        StreamIsBounded(data, blockSize, directory, offset, stream, blocks);
      }
      var rest := StreamsAreSound(data, blockSize, directory, offset + 4 * |blocks|, sizes[1..], streams[1..]);
      lists := [blocks] + rest;
      assert lists[1..] == rest && sizes == [sizes[0]] + sizes[1..];
    }
  }

  /** Reading a directory yields the streams iff the directory lists them. */
  lemma DirectoryIsExact(data: Bytes, blockSize: nat, directory: Bytes, streams: seq<Option<Bytes>>)
    requires blockSize > 0
    ensures ReadDirectory(data, blockSize, directory) == Ok(streams) <==>
      exists lists :: DirectoryLists(data, blockSize, directory, streams, lists)
  {
    if ReadDirectory(data, blockSize, directory) == Ok(streams) {
      DirectoryIsSound(data, blockSize, directory, streams);
    }
    forall lists | DirectoryLists(data, blockSize, directory, streams, lists)
      ensures ReadDirectory(data, blockSize, directory) == Ok(streams)
    {
      DirectoryIsComplete(data, blockSize, directory, streams, lists);
    }
  }

  lemma DirectoryIsSound(data: Bytes, blockSize: nat, directory: Bytes, streams: seq<Option<Bytes>>)
    requires blockSize > 0 && ReadDirectory(data, blockSize, directory) == Ok(streams)
    ensures exists lists :: DirectoryLists(data, blockSize, directory, streams, lists)
  {
    hide U32List, ReadStreams, EncodeAll, LittleEndian, HasAt, U32Bytes, StreamsAt;
    var count := LittleEndian(directory[..4]);
    U32IsExact(directory, 0, count);
    var sizes := U32List(directory, 4, count).value;
    U32ListIsExact(directory, 4, sizes);
    var lists := StreamsAreSound(data, blockSize, directory, 4 + 4 * count, sizes, streams);
    assert |streams| == count;
    assert DirectoryLists(data, blockSize, directory, streams, lists);
  }

  lemma DirectoryIsComplete(
    data: Bytes, blockSize: nat, directory: Bytes, streams: seq<Option<Bytes>>, lists: seq<seq<nat>>)
    requires blockSize > 0 && DirectoryLists(data, blockSize, directory, streams, lists)
    ensures ReadDirectory(data, blockSize, directory) == Ok(streams)
  {
    hide U32List, ReadStreams, EncodeAll, LittleEndian, U32Bytes, StreamsAt, AreU32;
    U32IsExact(directory, 0, |streams|);
    assert directory[0..4] == directory[..4];
    U32ListIsExact(directory, 4, SizesOf(streams));
    ListFits(directory, 4, SizesOf(streams));
    StreamsAreComplete(data, blockSize, directory, 4 + 4 * |streams|, streams, lists);
  }

  // ----- the whole image -----

  lemma HeaderIsExact(data: Bytes, blockSize: nat, directoryBytes: nat, mapAddress: nat)
    ensures HasHeader(data, blockSize, directoryBytes, mapAddress) <==>
      && SIGNATURE <= data
      && U32(data, 32) == Ok(blockSize) && U32(data, 44) == Ok(directoryBytes) && U32(data, 52) == Ok(mapAddress)
  {
    U32IsExact(data, 32, blockSize);
    U32IsExact(data, 44, directoryBytes);
    U32IsExact(data, 52, mapAddress);
    hide U32, U32Bytes, HasAt;
  }

  /**
   The reader is exact: on any bytes it returns streams iff the bytes are an image
   that holds precisely those streams.
   */
  lemma ReaderIsExact(data: Bytes, streams: seq<Option<Bytes>>)
    ensures PdbStreams(data) == Ok(streams) <==> exists layout :: Encodes(data, layout, streams)
  {
    if PdbStreams(data) == Ok(streams) { ReaderIsSound(data, streams); }
    forall layout | Encodes(data, layout, streams) ensures PdbStreams(data) == Ok(streams) {
      ReaderIsComplete(data, layout, streams);
    }
  }

  lemma ReaderIsComplete(data: Bytes, layout: Layout, streams: seq<Option<Bytes>>)
    requires Encodes(data, layout, streams)
    ensures PdbStreams(data) == Ok(streams)
  {
    hide U32, U32List, GatherBlocks, EncodeAll, U32Bytes, Holds, DirectoryLists, ReadDirectory, AreU32, HasHeader,
      CeilDiv;
    var bs := layout.blockSize;
    HeaderIsExact(data, bs, |layout.directory|, layout.mapAddress);
    U32ListIsExact(data, layout.mapAddress * bs, layout.directoryBlocks);
    GatherIsExact(data, bs, layout.directoryBlocks, layout.directory);
    DirectoryIsExact(data, bs, layout.directory, streams);
    var bytes := GatherBlocks(data, bs, layout.directoryBlocks).value;
    assert bytes[..|layout.directory|] == layout.directory;
  }

  lemma ReaderIsSound(data: Bytes, streams: seq<Option<Bytes>>)
    requires PdbStreams(data) == Ok(streams)
    ensures exists layout :: Encodes(data, layout, streams)
  {
    hide U32, U32List, GatherBlocks, EncodeAll, U32Bytes, Holds, DirectoryLists, AreU32, HasHeader, CeilDiv, HasAt;
    var bs, size, mapAddress := U32(data, 32).value, U32(data, 44).value, U32(data, 52).value;
    HeaderIsExact(data, bs, size, mapAddress);
    var blocks := U32List(data, mapAddress * bs, CeilDiv(size, bs)).value;
    var bytes := GatherBlocks(data, bs, blocks).value;
    GatherLength(data, bs, blocks);
    CeilDivCovers(size, bs);
    var directory := bytes[..size];
    GatherIsExact(data, bs, blocks, directory);
    assert |directory| >= 4;
    FirstNumberIsInRange(data, mapAddress * bs, blocks, bs, directory);
    U32ListIsExact(data, mapAddress * bs, blocks);
    DirectoryIsExact(data, bs, directory, streams);
    var lists :| DirectoryLists(data, bs, directory, streams, lists);
    assert Encodes(data, Layout(bs, mapAddress, directory, blocks, lists), streams);
  }

  lemma FirstNumberIsInRange(data: Bytes, offset: nat, blocks: seq<nat>, blockSize: nat, directory: Bytes)
    requires blockSize > 0 && directory != [] && Holds(data, blockSize, blocks, directory)
    requires U32List(data, offset, |blocks|) == Ok(blocks)
    ensures offset <= |data|
  {
  }
}
