/** A specification writer for MSF images: for every placement of blocks, the reader gives back what was written. */
module PdbWriter {
  import opened Wrappers
  import opened PdbContainer
  import opened PdbImages

  /** Where everything goes: the directory and every stream in any blocks, the block map in consecutive ones. */
  datatype Placement = Placement(
    blockSize: nat, totalBlocks: nat, mapBlocks: seq<nat>, directoryBlocks: seq<nat>, streamBlocks: seq<seq<nat>>)

  /** A piece of content and the blocks it goes to. */
  datatype Job = Job(blocks: seq<nat>, content: Bytes)

  function Zeros(n: nat): (b: Bytes)
    ensures |b| == n
  {
    seq(n, _ => 0)
  }

  function EncodeLists(lists: seq<seq<nat>>): Bytes
    requires forall k :: 0 <= k < |lists| ==> AreU32(lists[k])
  {
    if lists == [] then [] else EncodeAll(lists[0]) + EncodeLists(lists[1..])
  }

  ghost predicate AreWritable(streams: seq<Option<Bytes>>) {
    |streams| <= MAX_STREAMS && forall k :: 0 <= k < |streams| && streams[k].Some? ==> |streams[k].value| < NIL_STREAM
  }

  lemma {:induction false} WritableSizes(streams: seq<Option<Bytes>>)
    requires forall k :: 0 <= k < |streams| && streams[k].Some? ==> |streams[k].value| < NIL_STREAM
    ensures AreU32(SizesOf(streams))
    decreases |streams|
  {
    if streams != [] {
      WritableSizes(streams[1..]);
    }
  }

  function DirectoryOf(streams: seq<Option<Bytes>>, lists: seq<seq<nat>>): Bytes
    requires AreWritable(streams) && forall k :: 0 <= k < |lists| ==> AreU32(lists[k])
  {
    WritableSizes(streams);
    U32Bytes(|streams|) + EncodeAll(SizesOf(streams)) + EncodeLists(lists)
  }

  function ContentOf(stream: Option<Bytes>): Bytes {
    if stream.Some? then stream.value else []
  }

  function StreamJobs(streams: seq<Option<Bytes>>, lists: seq<seq<nat>>): (jobs: seq<Job>)
    requires |streams| == |lists|
    ensures |jobs| == |streams|
    ensures forall k :: 0 <= k < |jobs| ==> jobs[k] == Job(lists[k], ContentOf(streams[k]))
  {
    seq(|streams|, k requires 0 <= k < |streams| => Job(lists[k], ContentOf(streams[k])))
  }

  function Header(blockSize: nat, directoryBytes: nat, mapAddress: nat): (b: Bytes)
    requires blockSize <= NIL_STREAM && directoryBytes <= NIL_STREAM && mapAddress <= NIL_STREAM
    ensures |b| == 56
  {
    SIGNATURE + U32Bytes(blockSize) + Zeros(8) + U32Bytes(directoryBytes) + Zeros(4) + U32Bytes(mapAddress)
  }

  ghost predicate IsJob(job: Job, blockSize: nat, totalBlocks: nat)
    requires blockSize > 0
  {
    && |job.blocks| == CeilDiv(|job.content|, blockSize)
    && forall i :: 0 <= i < |job.blocks| ==> job.blocks[i] < totalBlocks
  }

  function BlocksOf(jobs: seq<Job>): seq<nat> {
    if jobs == [] then [] else jobs[0].blocks + BlocksOf(jobs[1..])
  }

  ghost predicate IsPlacement(streams: seq<Option<Bytes>>, p: Placement) {
    && 512 <= p.blockSize <= 65_536 && p.totalBlocks <= NIL_STREAM
    && AreWritable(streams) && |p.streamBlocks| == |streams|
    && AreU32(p.directoryBlocks) && (forall k :: 0 <= k < |p.streamBlocks| ==> AreU32(p.streamBlocks[k]))
    && p.mapBlocks != [] && p.mapBlocks[0] <= NIL_STREAM
    && (forall i :: 0 <= i < |p.mapBlocks| ==> p.mapBlocks[i] == p.mapBlocks[0] + i)
    && |DirectoryOf(streams, p.streamBlocks)| <= MAX_DIRECTORY_BYTES
    && (forall job :: job in Jobs(streams, p) ==> IsJob(job, p.blockSize, p.totalBlocks))
    && Distinct(BlocksOf(Jobs(streams, p)))
  }

  function Jobs(streams: seq<Option<Bytes>>, p: Placement): seq<Job>
    requires AreWritable(streams) && |p.streamBlocks| == |streams| && p.blockSize <= NIL_STREAM
    requires AreU32(p.directoryBlocks) && (forall k :: 0 <= k < |p.streamBlocks| ==> AreU32(p.streamBlocks[k]))
    requires p.mapBlocks != [] && p.mapBlocks[0] <= NIL_STREAM
    requires |DirectoryOf(streams, p.streamBlocks)| <= MAX_DIRECTORY_BYTES
  {
    var directory := DirectoryOf(streams, p.streamBlocks);
    [Job([0], Header(p.blockSize, |directory|, p.mapBlocks[0])),
     Job(p.mapBlocks, EncodeAll(p.directoryBlocks)),
     Job(p.directoryBlocks, directory)]
    + StreamJobs(streams, p.streamBlocks)
  }

  // ----- writing -----

  function Place(job: Job, blockSize: nat): map<nat, Bytes>
    requires blockSize > 0
    decreases |job.blocks|
  {
    if job.blocks == [] then map[]
    else
      map[job.blocks[0] := Chunk(job.content, blockSize)] +
        Place(Job(job.blocks[1..], Rest(job.content, blockSize)), blockSize)
  }

  function PlaceAll(jobs: seq<Job>, blockSize: nat): map<nat, Bytes>
    requires blockSize > 0
  {
    if jobs == [] then map[] else PlaceAll(jobs[1..], blockSize) + Place(jobs[0], blockSize)
  }

  function Pad(content: Bytes, blockSize: nat): (b: Bytes)
    ensures |content| <= blockSize ==> |b| == blockSize && content <= b
  {
    if |content| <= blockSize then content + Zeros(blockSize - |content|) else content
  }

  function Block(contents: map<nat, Bytes>, b: nat): Bytes {
    if b in contents then contents[b] else []
  }

  /** The image, block by block; unused space is zero. */
  function Paint(contents: map<nat, Bytes>, blockSize: nat, blocks: nat): Bytes {
    if blocks == 0 then [] else Paint(contents, blockSize, blocks - 1) + Pad(Block(contents, blocks - 1), blockSize)
  }

  function WriteImage(streams: seq<Option<Bytes>>, p: Placement): Bytes
    requires AreWritable(streams) && |p.streamBlocks| == |streams| && 0 < p.blockSize <= NIL_STREAM
    requires AreU32(p.directoryBlocks) && (forall k :: 0 <= k < |p.streamBlocks| ==> AreU32(p.streamBlocks[k]))
    requires p.mapBlocks != [] && p.mapBlocks[0] <= NIL_STREAM
    requires |DirectoryOf(streams, p.streamBlocks)| <= MAX_DIRECTORY_BYTES
  {
    Paint(PlaceAll(Jobs(streams, p), p.blockSize), p.blockSize, p.totalBlocks)
  }

  // ----- what is placed is held -----

  ghost predicate ChunksFit(contents: map<nat, Bytes>, blockSize: nat) {
    forall b :: b in contents ==> |contents[b]| <= blockSize
  }

  lemma {:induction false} PlaceFits(job: Job, blockSize: nat)
    requires blockSize > 0
    ensures ChunksFit(Place(job, blockSize), blockSize)
    ensures forall b :: b in Place(job, blockSize) ==> b in job.blocks
    decreases |job.blocks|
  {
    if job.blocks != [] {
      PlaceFits(Job(job.blocks[1..], Rest(job.content, blockSize)), blockSize);
    }
  }

  lemma HasAtInLonger(init: Bytes, last: Bytes, at: nat, chunk: Bytes)
    requires HasAt(init, at, chunk)
    ensures HasAt(init + last, at, chunk)
  {
    assert (init + last)[at..at + |chunk|] == init[at..at + |chunk|];
  }

  lemma HasAtEnd(init: Bytes, last: Bytes, chunk: Bytes)
    requires chunk <= last
    ensures HasAt(init + last, |init|, chunk)
  {
    assert (init + last)[|init|..|init| + |chunk|] == last[..|chunk|];
  }

  lemma {:induction false} PaintHolds(contents: map<nat, Bytes>, blockSize: nat, blocks: nat, b: nat)
    requires ChunksFit(contents, blockSize) && b < blocks
    ensures (b + 1) * blockSize <= |Paint(contents, blockSize, blocks)|
    ensures HasAt(Paint(contents, blockSize, blocks), b * blockSize, Block(contents, b))
    decreases blocks
  {
    hide HasAt, Pad;
    var init, last := Paint(contents, blockSize, blocks - 1), Pad(Block(contents, blocks - 1), blockSize);
    PaintLength(contents, blockSize, blocks - 1);
    PaintLength(contents, blockSize, blocks);
    MulMono(b + 1, blocks, blockSize);
    assert Paint(contents, blockSize, blocks) == init + last;
    if b == blocks - 1 {
      HasAtEnd(init, last, Block(contents, b));
    } else {
      PaintHolds(contents, blockSize, blocks - 1, b);
      HasAtInLonger(init, last, b * blockSize, Block(contents, b));
    }
  }

  lemma {:induction false} PaintLength(contents: map<nat, Bytes>, blockSize: nat, blocks: nat)
    requires ChunksFit(contents, blockSize)
    ensures |Paint(contents, blockSize, blocks)| == blocks * blockSize
    decreases blocks
  {
    if blocks > 0 {
      PaintLength(contents, blockSize, blocks - 1);
      assert blocks * blockSize == (blocks - 1) * blockSize + blockSize;
    }
  }

  ghost predicate Includes(contents: map<nat, Bytes>, part: map<nat, Bytes>) {
    forall b :: b in part ==> b in contents && contents[b] == part[b]
  }

  /** A job's first chunk and the rest of it, as placed. */
  lemma JobSplits(contents: map<nat, Bytes>, job: Job, blockSize: nat, totalBlocks: nat)
    requires blockSize > 0 && IsJob(job, blockSize, totalBlocks) && Distinct(job.blocks)
    requires Includes(contents, Place(job, blockSize)) && job.content != []
    ensures job.blocks != [] && job.blocks[0] < totalBlocks
    ensures Block(contents, job.blocks[0]) == Chunk(job.content, blockSize)
    ensures var rest := Job(job.blocks[1..], Rest(job.content, blockSize));
      IsJob(rest, blockSize, totalBlocks) && Distinct(rest.blocks) && Includes(contents, Place(rest, blockSize))
  {
    CeilDivSteps(|job.content|, blockSize);
    hide CeilDiv;
    assert job.blocks != [] by { CeilDivPositive(|job.content|, blockSize); }
    var rest := Job(job.blocks[1..], Rest(job.content, blockSize));
    CeilDivSteps(|rest.content|, blockSize);
    PlaceFits(rest, blockSize);
    assert job.blocks[0] !in rest.blocks;
    assert Place(job, blockSize)[job.blocks[0]] == Chunk(job.content, blockSize);
  }

  /** Content placed in distinct blocks of an image is held by them. */
  lemma {:induction false} PlacedIsHeld(contents: map<nat, Bytes>, job: Job, blockSize: nat, totalBlocks: nat)
    requires blockSize > 0 && IsJob(job, blockSize, totalBlocks) && Distinct(job.blocks)
    requires ChunksFit(contents, blockSize) && Includes(contents, Place(job, blockSize))
    ensures Holds(Paint(contents, blockSize, totalBlocks), blockSize, job.blocks, job.content)
    decreases |job.blocks|
  {
    CeilDivSteps(|job.content|, blockSize);
    hide CeilDiv, Paint, HasAt, Includes, Distinct, Chunk, Rest, ChunksFit, Block;
    if job.content != [] {
      JobSplits(contents, job, blockSize, totalBlocks);
      PaintHolds(contents, blockSize, totalBlocks, job.blocks[0]);
      PlacedIsHeld(contents, Job(job.blocks[1..], Rest(job.content, blockSize)), blockSize, totalBlocks);
    }
  }

  lemma CeilDivPositive(n: nat, d: nat)
    requires d > 0 && n > 0
    ensures CeilDiv(n, d) > 0
  {
    CeilDivSteps(n, d);
  }

  /** Jobs with distinct blocks do not overwrite each other. */
  lemma {:induction false} JobsDoNotOverlap(jobs: seq<Job>, blockSize: nat, job: Job)
    requires blockSize > 0 && Distinct(BlocksOf(jobs)) && job in jobs
    ensures Includes(PlaceAll(jobs, blockSize), Place(job, blockSize)) && Distinct(job.blocks)
    ensures ChunksFit(PlaceAll(jobs, blockSize), blockSize)
    decreases |jobs|
  {
    hide Place;
    var first, rest := jobs[0], jobs[1..];
    assert jobs == [first] + rest;
    var a, b := first.blocks, BlocksOf(rest);
    SplitDistinct(a, b);
    PlaceAllFits(jobs, blockSize);
    PlaceFits(job, blockSize);
    PlaceFits(first, blockSize);
    if job in rest {
      JobsDoNotOverlap(rest, blockSize, job);
      BlocksOfJob(rest, job);
    }
  }

  lemma SplitDistinct(a: seq<nat>, b: seq<nat>)
    requires Distinct(a + b)
    ensures Distinct(a) && Distinct(b)
    ensures forall x :: x in a ==> x !in b
  {
    var all := a + b;
    forall i, j | 0 <= i < j < |a| ensures a[i] != a[j] { assert all[i] != all[j]; }
    forall i, j | 0 <= i < j < |b| ensures b[i] != b[j] { assert all[|a| + i] != all[|a| + j]; }
    forall x | x in a ensures x !in b {
      var i :| 0 <= i < |a| && a[i] == x;
      forall j | 0 <= j < |b| ensures b[j] != x { assert all[i] != all[|a| + j]; }
    }
  }

  lemma {:induction false} BlocksOfJob(jobs: seq<Job>, job: Job)
    requires job in jobs
    ensures forall b :: b in job.blocks ==> b in BlocksOf(jobs)
    decreases |jobs|
  {
    assert jobs == [jobs[0]] + jobs[1..];
    if job in jobs[1..] { BlocksOfJob(jobs[1..], job); }
  }

  lemma {:induction false} PlaceAllFits(jobs: seq<Job>, blockSize: nat)
    requires blockSize > 0
    ensures ChunksFit(PlaceAll(jobs, blockSize), blockSize)
    decreases |jobs|
  {
    if jobs != [] {
      PlaceAllFits(jobs[1..], blockSize);
      PlaceFits(jobs[0], blockSize);
    }
  }

  /** Every job of a placement is held by the image. */
  lemma JobIsHeld(streams: seq<Option<Bytes>>, p: Placement, job: Job)
    requires IsPlacement(streams, p) && job in Jobs(streams, p)
    ensures Holds(WriteImage(streams, p), p.blockSize, job.blocks, job.content)
  {
    hide Jobs, BlocksOf, DirectoryOf, AreU32, AreWritable;
    JobsDoNotOverlap(Jobs(streams, p), p.blockSize, job);
    PlacedIsHeld(PlaceAll(Jobs(streams, p), p.blockSize), job, p.blockSize, p.totalBlocks);
  }

  // ----- the written image encodes the streams -----

  /** Content in consecutive blocks is consecutive. */
  lemma {:induction false} ConsecutiveBlocks(data: Bytes, blockSize: nat, blocks: seq<nat>, content: Bytes)
    requires blockSize > 0 && blocks != [] && Holds(data, blockSize, blocks, content)
    requires forall i :: 0 <= i < |blocks| ==> blocks[i] == blocks[0] + i
    ensures HasAt(data, blocks[0] * blockSize, content)
    decreases |blocks|
  {
    hide HasAt;
    var chunk, rest := Chunk(content, blockSize), Rest(content, blockSize);
    assert content == chunk + rest;
    var at := blocks[0] * blockSize;
    HasAtConcat(data, at, chunk, rest);
    if rest != [] {
      assert |chunk| == blockSize;
      assert blocks[1] * blockSize == at + blockSize;
      ConsecutiveBlocks(data, blockSize, blocks[1..], rest);
    } else {
      assert chunk == content;
    }
  }

  lemma HeaderIsWritten(data: Bytes, blockSize: nat, directoryBytes: nat, mapAddress: nat)
    requires blockSize <= NIL_STREAM && directoryBytes <= NIL_STREAM && mapAddress <= NIL_STREAM
    requires HasAt(data, 0, Header(blockSize, directoryBytes, mapAddress))
    ensures HasHeader(data, blockSize, directoryBytes, mapAddress)
  {
    var a, b, c := U32Bytes(blockSize), U32Bytes(directoryBytes), U32Bytes(mapAddress);
    hide HasAt, U32Bytes, Zeros;
    HasAtConcat(data, 0, SIGNATURE + a + Zeros(8) + b + Zeros(4), c);
    HasAtConcat(data, 0, SIGNATURE + a + Zeros(8) + b, Zeros(4));
    HasAtConcat(data, 0, SIGNATURE + a + Zeros(8), b);
    HasAtConcat(data, 0, SIGNATURE + a, Zeros(8));
    HasAtConcat(data, 0, SIGNATURE, a);
    HasAtStart(data, SIGNATURE);
  }

  lemma HasAtStart(data: Bytes, content: Bytes)
    ensures HasAt(data, 0, content) <==> content <= data
  {
    if |content| <= |data| { assert data[0..|content|] == data[..|content|]; }
  }

  lemma {:induction false} ListsAreWritten(
    data: Bytes, blockSize: nat, directory: Bytes, offset: nat, streams: seq<Option<Bytes>>, lists: seq<seq<nat>>)
    requires blockSize > 0 && |lists| == |streams|
    requires forall k :: 0 <= k < |streams| && streams[k].Some? ==> |streams[k].value| < NIL_STREAM
    requires forall k :: 0 <= k < |lists| ==> AreU32(lists[k])
    requires forall k :: 0 <= k < |lists| ==> Holds(data, blockSize, lists[k], ContentOf(streams[k]))
    requires HasAt(directory, offset, EncodeLists(lists))
    ensures StreamsAt(data, blockSize, directory, offset, streams, lists)
    decreases |streams|
  {
    hide HasAt, AreU32;
    if streams != [] {
      assert Holds(data, blockSize, lists[0], ContentOf(streams[0]));
      HasAtConcat(directory, offset, EncodeAll(lists[0]), EncodeLists(lists[1..]));
      ListsAreWritten(data, blockSize, directory, offset + 4 * |lists[0]|, streams[1..], lists[1..]);
    }
  }

  /** A written image encodes its streams. */
  lemma ImageEncodes(streams: seq<Option<Bytes>>, p: Placement)
    requires IsPlacement(streams, p)
    ensures Encodes(
      WriteImage(streams, p),
      Layout(p.blockSize, p.mapBlocks[0], DirectoryOf(streams, p.streamBlocks), p.directoryBlocks, p.streamBlocks),
      streams)
  {
    var data, directory := WriteImage(streams, p), DirectoryOf(streams, p.streamBlocks);
    var jobs := Jobs(streams, p);
    assert jobs[0] in jobs && jobs[1] in jobs && jobs[2] in jobs;
    JobIsHeld(streams, p, jobs[0]);
    JobIsHeld(streams, p, jobs[1]);
    JobIsHeld(streams, p, jobs[2]);
    hide WriteImage, Holds, HasAt, EncodeAll, AreU32, HasHeader, DirectoryLists;
    assert HasHeader(data, p.blockSize, |directory|, p.mapBlocks[0]) by {
      HeaderInBlockZero(data, p.blockSize, Header(p.blockSize, |directory|, p.mapBlocks[0]));
      HeaderIsWritten(data, p.blockSize, |directory|, p.mapBlocks[0]);
    }
    ConsecutiveBlocks(data, p.blockSize, p.mapBlocks, EncodeAll(p.directoryBlocks));
    DirectoryIsWritten(streams, p);
  }

  lemma HeaderInBlockZero(data: Bytes, blockSize: nat, header: Bytes)
    requires |header| <= 512 <= blockSize && header != [] && Holds(data, blockSize, [0], header)
    ensures HasAt(data, 0, header)
  {
  }

  lemma StreamsAreHeld(streams: seq<Option<Bytes>>, p: Placement)
    requires IsPlacement(streams, p)
    ensures forall k :: 0 <= k < |streams| ==>
      Holds(WriteImage(streams, p), p.blockSize, p.streamBlocks[k], ContentOf(streams[k]))
  {
    hide WriteImage, Holds;
    var jobs, streamJobs := Jobs(streams, p), StreamJobs(streams, p.streamBlocks);
    forall k | 0 <= k < |streams|
      ensures Holds(WriteImage(streams, p), p.blockSize, p.streamBlocks[k], ContentOf(streams[k]))
    {
      assert jobs[3 + k] == streamJobs[k] && jobs[3 + k] in jobs;
      JobIsHeld(streams, p, streamJobs[k]);
    }
  }

  lemma DirectoryIsWritten(streams: seq<Option<Bytes>>, p: Placement)
    requires IsPlacement(streams, p)
    ensures DirectoryLists(
      WriteImage(streams, p), p.blockSize, DirectoryOf(streams, p.streamBlocks), streams, p.streamBlocks)
  {
    StreamsAreHeld(streams, p);
    DirectoryParts(streams, p.streamBlocks);
    hide WriteImage, Holds, HasAt, EncodeAll, AreU32, DirectoryOf, EncodeLists, Distinct, IsJob, Jobs;
    ListsAreWritten(
      WriteImage(streams, p), p.blockSize, DirectoryOf(streams, p.streamBlocks),
      4 + 4 * |streams|, streams, p.streamBlocks);
  }

  /** A written directory holds the number of streams, their sizes and their block lists, one after the other. */
  lemma DirectoryParts(streams: seq<Option<Bytes>>, lists: seq<seq<nat>>)
    requires AreWritable(streams) && forall k :: 0 <= k < |lists| ==> AreU32(lists[k])
    ensures var directory := DirectoryOf(streams, lists);
      && HasAt(directory, 0, U32Bytes(|streams|)) && AreU32(SizesOf(streams))
      && HasAt(directory, 4, EncodeAll(SizesOf(streams)))
      && HasAt(directory, 4 + 4 * |streams|, EncodeLists(lists))
  {
    WritableSizes(streams);
    hide HasAt, EncodeAll, AreU32, U32Bytes, SizesOf, EncodeLists;
    var directory := DirectoryOf(streams, lists);
    var count, sizes, rest := U32Bytes(|streams|), EncodeAll(SizesOf(streams)), EncodeLists(lists);
    assert directory == count + sizes + rest;
    HasAtStart(directory, directory);
    HasAtConcat(directory, 0, count + sizes, rest);
    HasAtConcat(directory, 0, count, sizes);
  }

  /** Round trip: whatever the placement, reading a written image gives back the streams. */
  lemma WriterRoundTrip(streams: seq<Option<Bytes>>, p: Placement)
    requires IsPlacement(streams, p)
    ensures PdbStreams(WriteImage(streams, p)) == Ok(streams)
  {
    ImageEncodes(streams, p);
    hide IsPlacement, WriteImage, Encodes, PdbStreams;
    ReaderIsExact(WriteImage(streams, p), streams);
  }

  /**
   The identity stored in the information stream is read back from any image
   the stream is placed in; a shorter or absent stream is refused.
   */
  lemma IdentityRoundTrip(streams: seq<Option<Bytes>>, p: Placement, head: Bytes, age: nat, guid: Bytes, tail: Bytes)
    requires IsPlacement(streams, p) && age <= NIL_STREAM && |head| == 8 && |guid| == 16
    ensures |streams| > 1 && streams[1] == Some(head + U32Bytes(age) + guid + tail) ==>
      PdbInfoIdentity(WriteImage(streams, p)) == Ok(Identity(guid, age))
    ensures (|streams| <= 1 || streams[1].None? || |streams[1].value| < 28) <==>
      PdbInfoIdentity(WriteImage(streams, p)) == Err(InfoStreamMissing)
  {
    hide PdbStreams, WriteImage, IsPlacement, U32Bytes, LittleEndian;
    WriterRoundTrip(streams, p);
    U32RoundTrip(age);
    if |streams| > 1 && streams[1] == Some(head + U32Bytes(age) + guid + tail) {
      var info := streams[1].value;
      assert info[8..12] == U32Bytes(age) && info[12..28] == guid;
    }
  }
}
