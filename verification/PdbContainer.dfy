/**
 The MSF container reader: a block-indirect stream directory, read with
 ceiling-division arithmetic, and the images it accepts.
 */
module PdbContainer {
  import opened Wrappers

  type Byte = x: int | 0 <= x < 256
  type Bytes = seq<Byte>

  datatype ReadError =
    | Truncated
    | SignatureInvalid
    | DirectoryInvalid
    | StreamCountInvalid
    | StreamSizesTruncated
    | StreamBlocksTruncated
    | InfoStreamMissing

  const NIL_STREAM: nat := 0xFFFF_FFFF
  const MAX_DIRECTORY_BYTES: nat := 67_108_864
  const MAX_STREAMS: nat := 65_536

  /** `Microsoft C/C++ MSF 7.00\r\n\x1aDS\0\0\0`, 32 bytes. */
  const SIGNATURE: Bytes := [
    77, 105, 99, 114, 111, 115, 111, 102, 116, 32, 67, 47, 67, 43, 43, 32,
    77, 83, 70, 32, 55, 46, 48, 48, 13, 10, 26, 68, 83, 0, 0, 0]

  // ----- reading -----

  function ReadExact(data: Bytes, offset: int, size: int): (r: Result<Bytes, ReadError>)
    ensures r.Err? ==> r.error == Truncated
  {
    if offset < 0 || size < 0 || offset + size > |data| then Err(Truncated) else Ok(data[offset..offset + size])
  }

  function LittleEndian(b: Bytes): (n: nat)
    requires |b| == 4
    ensures n <= NIL_STREAM
  {
    (b[0] as int) + 0x100 * (b[1] as int) + 0x1_0000 * (b[2] as int) + 0x100_0000 * (b[3] as int)
  }

  function U32(data: Bytes, offset: int): (r: Result<nat, ReadError>)
    ensures r.Ok? <==> 0 <= offset && offset + 4 <= |data|
    ensures r.Ok? ==> r.value == LittleEndian(data[offset..offset + 4])
    ensures r.Err? ==> r.error == Truncated
  {
    match ReadExact(data, offset, 4)
    case Err(e) => Err(e)
    case Ok(b) => Ok(LittleEndian(b))
  }

  /** Consecutive little-endian numbers. */
  function U32List(data: Bytes, offset: nat, count: nat): (r: Result<seq<nat>, ReadError>)
    ensures r.Ok? ==> |r.value| == count
    ensures r.Err? ==> r.error == Truncated
    decreases count
  {
    if count == 0 then Ok([])
    else
      match (U32(data, offset), U32List(data, offset + 4, count - 1))
      case (Ok(head), Ok(tail)) => Ok([head] + tail)
      case (Err(e), _) => Err(e)
      case (_, Err(e)) => Err(e)
  }

  /** The contents of whole blocks, joined. */
  function GatherBlocks(data: Bytes, blockSize: nat, blocks: seq<nat>): (r: Result<Bytes, ReadError>)
    ensures r.Err? ==> r.error == Truncated
    decreases |blocks|
  {
    if blocks == [] then Ok([])
    else
      match (ReadExact(data, blocks[0] * blockSize, blockSize), GatherBlocks(data, blockSize, blocks[1..]))
      case (Ok(head), Ok(tail)) => Ok(head + tail)
      case (Err(e), _) => Err(e)
      case (_, Err(e)) => Err(e)
  }

  function CeilDiv(n: nat, d: nat): nat
    requires d > 0
  {
    (n + d - 1) / d
  }

  function ReadStream(data: Bytes, blockSize: nat, directory: Bytes, size: nat, offset: nat): Result<Bytes, ReadError>
    requires blockSize > 0
  {
    var count := CeilDiv(size, blockSize);
    if offset + 4 * count > |directory| then Err(StreamBlocksTruncated)
    else
      match U32List(directory, offset, count)
      case Err(e) => Err(e)
      case Ok(blocks) =>
        match GatherBlocks(data, blockSize, blocks)
        case Err(e) => Err(e)
        case Ok(bytes) => Ok(if size <= |bytes| then bytes[..size] else bytes)
  }

  function ReadStreams(data: Bytes, blockSize: nat, directory: Bytes, sizes: seq<nat>, offset: nat)
    : Result<seq<Option<Bytes>>, ReadError>
    requires blockSize > 0
    decreases |sizes|
  {
    if sizes == [] then Ok([])
    else if sizes[0] == NIL_STREAM then
      match ReadStreams(data, blockSize, directory, sizes[1..], offset)
      case Err(e) => Err(e)
      case Ok(rest) => Ok([None] + rest)
    else
      match ReadStream(data, blockSize, directory, sizes[0], offset)
      case Err(e) => Err(e)
      case Ok(stream) =>
        match ReadStreams(data, blockSize, directory, sizes[1..], offset + 4 * CeilDiv(sizes[0], blockSize))
        case Err(e) => Err(e)
        case Ok(rest) => Ok([Some(stream)] + rest)
  }

  /** Streams from a complete directory. */
  function ReadDirectory(data: Bytes, blockSize: nat, directory: Bytes): Result<seq<Option<Bytes>>, ReadError>
    requires blockSize > 0
  {
    if |directory| < 4 then Err(DirectoryInvalid)
    else
      var count := LittleEndian(directory[..4]);
      if count > MAX_STREAMS then Err(StreamCountInvalid)
      else if 4 + 4 * count > |directory| then Err(StreamSizesTruncated)
      else
        match U32List(directory, 4, count)
        case Err(e) => Err(e)
        case Ok(sizes) => ReadStreams(data, blockSize, directory, sizes, 4 + 4 * count)
  }

  /** Streams of an image whose header has been read. */
  function ReadImage(
    data: Bytes, blockSize: nat, directoryBytes: nat, mapAddress: nat)
    : Result<seq<Option<Bytes>>, ReadError>
  {
    if blockSize < 512 || blockSize > 65_536 || directoryBytes > MAX_DIRECTORY_BYTES then Err(DirectoryInvalid)
    else
      match U32List(data, mapAddress * blockSize, CeilDiv(directoryBytes, blockSize))
      case Err(e) => Err(e)
      case Ok(blocks) =>
        match GatherBlocks(data, blockSize, blocks)
        case Err(e) => Err(e)
        case Ok(bytes) =>
          ReadDirectory(data, blockSize, if directoryBytes <= |bytes| then bytes[..directoryBytes] else bytes)
  }

  function PdbStreams(data: Bytes): Result<seq<Option<Bytes>>, ReadError> {
    if !(SIGNATURE <= data) then Err(SignatureInvalid)
    else
      match (U32(data, 32), U32(data, 44), U32(data, 52))
      case (Ok(blockSize), Ok(directoryBytes), Ok(mapAddress)) => ReadImage(data, blockSize, directoryBytes, mapAddress)
      case _ => Err(Truncated)
  }

  /** What ties an executable to its symbols: the GUID and age of the information stream. */
  datatype Identity = Identity(guid: Bytes, age: nat)

  function PdbInfoIdentity(data: Bytes): Result<Identity, ReadError> {
    match PdbStreams(data)
    case Err(e) => Err(e)
    case Ok(streams) =>
      if |streams| <= 1 || streams[1].None? || |streams[1].value| < 28 then Err(InfoStreamMissing)
      else
        var info := streams[1].value;
        match U32(info, 8)
        case Err(e) => Err(e)
        case Ok(age) => Ok(Identity(info[12..28], age))
  }

  // ----- the reader's loops -----

  method ReadStreamLoop(
    data: Bytes, blockSize: nat, directory: Bytes, size: nat, offset: nat)
    returns (r: Result<Bytes, ReadError>)
    requires blockSize > 0
    ensures r == ReadStream(data, blockSize, directory, size, offset)
  {
    var count := CeilDiv(size, blockSize);
    var end := offset + 4 * count;
    if end > |directory| { return Err(StreamBlocksTruncated); }
    var streamData: Bytes := [];
    ghost var blocks: seq<nat> := [];
    for index := 0 to count
      invariant |blocks| == index
      invariant U32List(directory, offset, index) == Ok(blocks)
      invariant GatherBlocks(data, blockSize, blocks) == Ok(streamData)
    {
      var number := U32(directory, offset + index * 4);
      AppendNumber(directory, offset, index);
      AppendBlock(data, blockSize, blocks, number.value);
      blocks := blocks + [number.value];
      var block := ReadExact(data, number.value * blockSize, blockSize);
      if block.Err? {
        LaterBlocksStillFail(data, blockSize, directory, offset, index + 1, count);
        return Err(block.error);
      }
      streamData := streamData + block.value;
    }
    return Ok(if size <= |streamData| then streamData[..size] else streamData);
  }

  lemma {:induction false} AppendNumber(data: Bytes, offset: nat, count: nat)
    ensures U32List(data, offset, count + 1) ==
      match (U32List(data, offset, count), U32(data, offset + count * 4))
      case (Ok(init), Ok(last)) => Ok(init + [last])
      case _ => Err(Truncated)
    decreases count
  {
    hide U32;
    if count == 0 {
      assert U32List(data, offset + 4, 0) == Ok([]);
      var last := U32(data, offset);
      if last.Ok? { assert [last.value] + [] == [] + [last.value]; }
    } else {
      AppendNumber(data, offset + 4, count - 1);
      var head, init, last := U32(data, offset), U32List(data, offset + 4, count - 1), U32(data, offset + count * 4);
      if head.Ok? && init.Ok? && last.Ok? {
        assert ([head.value] + init.value) + [last.value] == [head.value] + (init.value + [last.value]);
      }
    }
  }

  lemma {:induction false} AppendBlock(data: Bytes, blockSize: nat, blocks: seq<nat>, last: nat)
    ensures GatherBlocks(data, blockSize, blocks + [last]) ==
      match (GatherBlocks(data, blockSize, blocks), ReadExact(data, last * blockSize, blockSize))
      case (Ok(init), Ok(tail)) => Ok(init + tail)
      case _ => Err(Truncated)
    decreases |blocks|
  {
    hide ReadExact;
    if blocks == [] {
      assert (blocks + [last])[1..] == [];
      var tail := ReadExact(data, last * blockSize, blockSize);
      if tail.Ok? { assert tail.value + [] == [] + tail.value; }
    } else {
      assert (blocks + [last])[1..] == blocks[1..] + [last];
      AppendBlock(data, blockSize, blocks[1..], last);
      assert (blocks + [last])[0] == blocks[0];
      var head, init, tail := ReadExact(data, blocks[0] * blockSize, blockSize),
        GatherBlocks(data, blockSize, blocks[1..]), ReadExact(data, last * blockSize, blockSize);
      if head.Ok? && init.Ok? && tail.Ok? {
        assert (head.value + init.value) + tail.value == head.value + (init.value + tail.value);
      }
    }
  }

  /** Once a block is out of range, so is the whole stream. */
  lemma {:induction false} LaterBlocksStillFail(
    data: Bytes, blockSize: nat, directory: Bytes, offset: nat, n: nat, count: nat)
    requires n <= count && offset + 4 * count <= |directory|
    requires U32List(directory, offset, n).Ok?
      && GatherBlocks(data, blockSize, U32List(directory, offset, n).value).Err?
    ensures U32List(directory, offset, count).Ok?
    ensures GatherBlocks(data, blockSize, U32List(directory, offset, count).value) == Err(Truncated)
    decreases count - n
  {
    hide U32List, GatherBlocks, ReadExact;
    if n < count {
      AppendNumber(directory, offset, n);
      var blocks := U32List(directory, offset, n).value;
      AppendBlock(data, blockSize, blocks, U32(directory, offset + n * 4).value);
      LaterBlocksStillFail(data, blockSize, directory, offset, n + 1, count);
    }
  }

  method GatherBlocksLoop(data: Bytes, blockSize: nat, blocks: seq<nat>) returns (r: Result<Bytes, ReadError>)
    ensures r == GatherBlocks(data, blockSize, blocks)
  {
    hide GatherBlocks, ReadExact;
    var joined: Bytes := [];
    assert GatherBlocks(data, blockSize, []) == Ok([]) by { GatherNothing(data, blockSize); }
    assert blocks[..0] == [];
    for k := 0 to |blocks|
      invariant GatherBlocks(data, blockSize, blocks[..k]) == Ok(joined)
    {
      AppendBlock(data, blockSize, blocks[..k], blocks[k]);
      assert blocks[..k] + [blocks[k]] == blocks[..k + 1];
      var block := ReadExact(data, blocks[k] * blockSize, blockSize);
      if block.Err? {
        LongerStillFails(data, blockSize, blocks, k + 1);
        return Err(block.error);
      }
      joined := joined + block.value;
    }
    assert blocks[..|blocks|] == blocks;
    return Ok(joined);
  }

  lemma GatherNothing(data: Bytes, blockSize: nat)
    ensures GatherBlocks(data, blockSize, []) == Ok([])
  {
  }

  lemma {:induction false} LongerStillFails(data: Bytes, blockSize: nat, blocks: seq<nat>, n: nat)
    requires n <= |blocks| && GatherBlocks(data, blockSize, blocks[..n]).Err?
    ensures GatherBlocks(data, blockSize, blocks) == Err(Truncated)
    decreases |blocks| - n
  {
    hide GatherBlocks, ReadExact;
    if n == |blocks| {
      assert blocks[..n] == blocks;
    } else {
      AppendBlock(data, blockSize, blocks[..n], blocks[n]);
      assert blocks[..n] + [blocks[n]] == blocks[..n + 1];
      LongerStillFails(data, blockSize, blocks, n + 1);
    }
  }

  /** The whole result, given the streams read so far and what the rest gives. */
  function Continue(
    streams: seq<Option<Bytes>>, rest: Result<seq<Option<Bytes>>, ReadError>)
    : Result<seq<Option<Bytes>>, ReadError>
  {
    match rest
    case Err(e) => Err(e)
    case Ok(more) => Ok(streams + more)
  }

  method ReadStreamsLoop(data: Bytes, blockSize: nat, directory: Bytes, sizes: seq<nat>, start: nat)
    returns (r: Result<seq<Option<Bytes>>, ReadError>)
    requires blockSize > 0
    ensures r == ReadStreams(data, blockSize, directory, sizes, start)
  {
    hide ReadStream;
    var streams: seq<Option<Bytes>> := [];
    var blockListsOffset: nat := start;
    ContinueEmpty(ReadStreams(data, blockSize, directory, sizes, start));
    assert sizes[0..] == sizes;
    for k := 0 to |sizes|
      invariant Continue(streams, ReadStreams(data, blockSize, directory, sizes[k..], blockListsOffset))
             == ReadStreams(data, blockSize, directory, sizes, start)
    {
      var size := sizes[k];
      assert sizes[k..][1..] == sizes[k + 1..];
      if size == NIL_STREAM {
        ContinueNext(streams, None, ReadStreams(data, blockSize, directory, sizes[k + 1..], blockListsOffset));
        streams := streams + [None];
        continue;
      }
      var stream := ReadStreamLoop(data, blockSize, directory, size, blockListsOffset);
      if stream.Err? { return Err(stream.error); }
      blockListsOffset := blockListsOffset + 4 * CeilDiv(size, blockSize);
      ContinueNext(
        streams, Some(stream.value), ReadStreams(data, blockSize, directory, sizes[k + 1..], blockListsOffset));
      streams := streams + [Some(stream.value)];
    }
    assert streams + [] == streams;
    return Ok(streams);
  }

  lemma ContinueEmpty(rest: Result<seq<Option<Bytes>>, ReadError>)
    ensures Continue([], rest) == rest
  {
    if rest.Ok? { assert [] + rest.value == rest.value; }
  }

  lemma ContinueNext(streams: seq<Option<Bytes>>, next: Option<Bytes>, rest: Result<seq<Option<Bytes>>, ReadError>)
    ensures Continue(streams + [next], rest) == Continue(streams, if rest.Ok? then Ok([next] + rest.value) else rest)
  {
    if rest.Ok? { assert (streams + [next]) + rest.value == streams + ([next] + rest.value); }
  }

  method PdbStreamsLoop(data: Bytes) returns (r: Result<seq<Option<Bytes>>, ReadError>)
    ensures r == PdbStreams(data)
  {
    hide U32List, GatherBlocks, ReadStreams;
    if !(SIGNATURE <= data) { return Err(SignatureInvalid); }
    var header := (U32(data, 32), U32(data, 44), U32(data, 52));
    if header.0.Err? || header.1.Err? || header.2.Err? { return Err(Truncated); }
    var blockSize, directoryBytes, mapAddress := header.0.value, header.1.value, header.2.value;
    if blockSize < 512 || blockSize > 65_536 || directoryBytes > MAX_DIRECTORY_BYTES { return Err(DirectoryInvalid); }
    var blockNumbers := U32List(data, mapAddress * blockSize, CeilDiv(directoryBytes, blockSize));
    if blockNumbers.Err? { return Err(blockNumbers.error); }
    var gathered := GatherBlocksLoop(data, blockSize, blockNumbers.value);
    if gathered.Err? { return Err(gathered.error); }
    var directory := if directoryBytes <= |gathered.value| then gathered.value[..directoryBytes] else gathered.value;
    if |directory| < 4 { return Err(DirectoryInvalid); }
    var streamCount := LittleEndian(directory[..4]);
    if streamCount > MAX_STREAMS { return Err(StreamCountInvalid); }
    if 4 + 4 * streamCount > |directory| { return Err(StreamSizesTruncated); }
    var sizes := U32List(directory, 4, streamCount);
    if sizes.Err? { return Err(sizes.error); }
    r := ReadStreamsLoop(data, blockSize, directory, sizes.value, 4 + 4 * streamCount);
  }
}
