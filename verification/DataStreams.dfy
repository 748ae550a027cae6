/** Data streams: a list of segments of the volume, or a buffer, read by cumulative offset. */
module DataStreams {
  import opened Integers
  import opened Collections
  import opened IoHandles
  import opened Extents
  import opened Inodes

  datatype Segment = Segment(offset: int, size: nat, flags: nat) {
    predicate IsSparse() {
      flags % 2 == FLAG_IS_SPARSE
    }
  }

  /** What the offsets of the segments refer to. */
  datatype Source = Volume | Buffer(data: Option<seq<byte>>)

  class Stream {
    const source: Source
    var segments: seq<Segment>
    var mappedSize: nat

    constructor (source: Source)
      ensures this.source == source && segments == [] && mappedSize == 0
    {
      this.source, segments, mappedSize := source, [], 0;
    }

    method AppendSegment(offset: int, size: nat, flags: nat)
      modifies this
      ensures segments == old(segments) + [Segment(offset, size, flags)] && mappedSize == old(mappedSize)
    {
      segments := segments + [Segment(offset, size, flags)];
    }
  }

  /** The segment that an extent becomes: its translated offset, its size in bytes, its flags. */
  function SegmentOf(io: IoHandle, e: Extent): Segment {
    Segment(io.ByteOffset(e.physicalBlockNumber), e.numberOfBlocks * io.blockSize, e.rangeFlags)
  }

  function SegmentsOf(io: IoHandle, xs: seq<Extent>): (segments: seq<Segment>)
    ensures |segments| == |xs|
  {
    if xs == [] then [] else SegmentsOf(io, xs[..|xs| - 1]) + [SegmentOf(io, xs[|xs| - 1])]
  }

  method InitializeFromExtents(io: IoHandle, extents: seq<Extent>, dataSize: nat) returns (stream: Option<Stream>)
    ensures stream.Some? <==> io.allocationGroupSize != 0 && io.blockSize != 0
    ensures stream.Some? ==> fresh(stream.value) && stream.value.source == Volume
                             && stream.value.segments == SegmentsOf(io, extents) && stream.value.mappedSize == dataSize
  {
    if io.allocationGroupSize == 0 {
      return None;
    }
    if io.blockSize == 0 {
      return None;
    }
    var safe := new Stream(Volume);
    for extentIndex := 0 to |extents|
      invariant safe.segments == SegmentsOf(io, extents[..extentIndex])
    {
      var extent := extents[extentIndex];
      var allocationGroupIndex := io.GroupIndex(extent.physicalBlockNumber);
      var relativeBlockNumber := io.RelativeBlock(extent.physicalBlockNumber);
      var offset := Int64((allocationGroupIndex * io.allocationGroupSize + relativeBlockNumber) * io.blockSize);
      var size := extent.numberOfBlocks * io.blockSize;
      safe.AppendSegment(offset, size, extent.rangeFlags);
      assert extents[..extentIndex + 1][..extentIndex] == extents[..extentIndex];
    }
    assert extents[..|extents|] == extents;
    safe.mappedSize := dataSize;
    stream := Some(safe);
  }

  /** A stream of one segment over a buffer. A size without a buffer is refused. */
  method InitializeFromData(data: Option<seq<byte>>, dataSize: nat) returns (stream: Option<Stream>)
    ensures stream.Some? <==> dataSize == 0 || data.Some?
    ensures stream.Some? ==> fresh(stream.value) && stream.value.source == Buffer(data)
                             && stream.value.segments == [Segment(0, dataSize, 0)]
  {
    if dataSize > 0 {
      if data == None {
        return None;
      }
    }
    var safe := new Stream(Buffer(data));
    safe.AppendSegment(0, dataSize, 0);
    stream := Some(safe);
  }

  /** The stream of an inode's data: from the inode itself, or from its extents. */
  method Initialize(io: IoHandle, fork: Fork, dataSize: nat) returns (stream: Option<Stream>)
    ensures fork.Unsupported? ==> stream.None?
    ensures fork.InlineData? ==> 
              stream.Some? && stream.value.source == Buffer(Some(fork.data))
                && stream.value.segments == [Segment(0, dataSize, 0)]
    ensures fork.Extents? && dataSize > 0 ==>
              && (stream.Some? <==> io.allocationGroupSize != 0 && io.blockSize != 0)
              && (stream.Some? ==>
                    && stream.value.source == Volume
                    && stream.value.segments == SegmentsOf(io, fork.extents)
                    && stream.value.mappedSize == dataSize)
    ensures fork.Extents? && dataSize == 0 ==>
              stream.Some? && stream.value.source == Buffer(None) && stream.value.segments == [Segment(0, 0, 0)]
  {
    if fork.Unsupported? {
      return None;
    }
    if dataSize == 0 || fork.InlineData? {
      stream := InitializeFromData(if fork.InlineData? then Some(fork.data) else None, dataSize);
    } else {
      stream := InitializeFromExtents(io, fork.extents, dataSize);
    }
  }

  // ---------- Reading by cumulative offset ----------

  /** Where a byte of a stream comes from: nowhere (it reads as zero), or an offset of the volume. */
  datatype Cell = Zero | StoredAt(offset: int)

  function TotalSize(segments: seq<Segment>): nat {
    if segments == [] then 0 else TotalSize(segments[..|segments| - 1]) + segments[|segments| - 1].size
  }

  function CellIn(segment: Segment, position: nat): Cell {
    if segment.IsSparse() then Zero else StoredAt(segment.offset + position)
  }

  /** The cell at a cumulative offset: the segment in which the offset falls, and the offset in it. */
  function CellAt(segments: seq<Segment>, position: nat): Option<Cell> {
    if segments == [] then None
    else if position < segments[0].size then Some(CellIn(segments[0], position))
    else CellAt(segments[1..], position - segments[0].size)
  }

  /** What a caller reads: nothing at or behind the mapped size. */
  function ReadCell(segments: seq<Segment>, mappedSize: nat, position: nat): Option<Cell> {
    if position < mappedSize then CellAt(segments, position) else None
  }

  lemma {:induction false} TotalSizeSplit(segments: seq<Segment>)
    requires segments != []
    ensures TotalSize(segments) == segments[0].size + TotalSize(segments[1..])
    decreases |segments|
  {
    if |segments| > 1 {
      var init := segments[..|segments| - 1];
      TotalSizeSplit(init);
      assert init[1..] == segments[1..][..|segments| - 2];
    }
  }

  lemma {:induction false} CellAtSnoc(segments: seq<Segment>, last: Segment, position: nat)
    ensures CellAt(segments + [last], position) ==
            if position < TotalSize(segments) then CellAt(segments, position)
            else if position - TotalSize(segments) < last.size then Some(CellIn(last, position - TotalSize(segments)))
            else None
    decreases |segments|
  {
    var all := segments + [last];
    if segments == [] {
      assert all[1..] == [];
    } else {
      TotalSizeSplit(segments);
      assert all[1..] == segments[1..] + [last];
      if position >= segments[0].size {
        CellAtSnoc(segments[1..], last, position - segments[0].size);
      }
    }
  }

  // ---------- The stream of extents reads as the block map ----------

  /** A stored extent lies inside one allocation group and all its addresses fit. */
  ghost predicate InOneGroup(io: IoHandle, e: Extent) {
    e.IsSparse() ||
    (io.RelativeBlock(e.physicalBlockNumber) + e.numberOfBlocks <= io.GroupSpan() &&
     forall block: nat | e.physicalBlockNumber <= block < e.physicalBlockNumber + e.numberOfBlocks ::
       io.Addressable(block))
  }

  /** Where the block map of a file puts a byte of the file. */
  function MappedCell(io: IoHandle, xs: seq<Extent>, position: nat): Cell
    requires io.blockSize > 0
  {
    match MapAt(xs, BlockOf(io, position))
    case Hole => Zero
    case At(block) => StoredAt(io.ByteOffset(block) + position % io.blockSize)
  }

  function BlockOf(io: IoHandle, position: nat): nat
    requires io.blockSize > 0
  {
    DivNonNegative(position, io.blockSize);
    position / io.blockSize
  }

  /** The segments of a gap-free list add up to its blocks. */
  lemma {:induction false} SegmentsCoverBlocks(io: IoHandle, xs: seq<Extent>)
    requires InRange(xs) && GapFree(xs)
    ensures TotalSize(SegmentsOf(io, xs)) == EndOf(xs) * io.blockSize
    decreases |xs|
  {
    hide U64, Geometry.ByteOffset;
    if xs != [] {
      var init, last := xs[..|xs| - 1], xs[|xs| - 1];
      SegmentsCoverBlocks(io, init);
      var segments := SegmentsOf(io, xs);
      assert segments[..|segments| - 1] == SegmentsOf(io, init);
      MulDistribute(last.logicalBlockNumber, last.numberOfBlocks, io.blockSize);
    }
  }

  /** One extent: the byte at a position inside its segment is the byte of the block it maps. */
  lemma ExtentCell(io: IoHandle, x: Extent, position: nat)
    requires io.blockSize > 0 && InOneGroup(io, x) && x.End() < TWO_64
    requires x.logicalBlockNumber * io.blockSize <= position < x.End() * io.blockSize
    ensures x.Contains(BlockOf(io, position))
    ensures CellIn(SegmentOf(io, x), position - x.logicalBlockNumber * io.blockSize) ==
            match Locate(x, BlockOf(io, position))
            case Hole => Zero
            case At(block) => StoredAt(io.ByteOffset(block) + position % io.blockSize)
  {
    hide Geometry.ByteOffset, Geometry.Addressable, Geometry.RelativeBlock, Geometry.GroupSpan;
    var block := BlockOf(io, position);
    PositionInRun(x.logicalBlockNumber, x.End(), position, io.blockSize);
    if !x.IsSparse() {
      var k := block - x.logicalBlockNumber;
      io.ByteOffsetContiguous(x.physicalBlockNumber, k);
      MulDistribute(x.logicalBlockNumber, k, io.blockSize);
    }
  }

  lemma PositionInRun(first: nat, end: nat, position: nat, size: nat)
    requires size > 0 && first * size <= position < end * size
    ensures first <= position / size < end
    ensures position == position / size * size + position % size
  {
    var q := position / size;
    assert position == q * size + position % size;
    if q < first {
      MulStep(q, first, size);
    }
    if end <= q {
      MulMono(end, q, size);
    }
  }

  lemma PositionBefore(first: nat, position: nat, size: nat)
    requires size > 0 && position < first * size
    ensures position / size < first
  {
    PositionInRun(0, first, position, size);
  }

  /** Reading the segment list of a gap-free extent list by cumulative offset reaches, for every
      byte, what the logical block map gives for its block. */
  lemma {:induction false} StreamReadsTheBlockMap(io: IoHandle, xs: seq<Extent>, position: nat)
    requires io.blockSize > 0 && InRange(xs) && GapFree(xs)
    requires forall e | e in xs :: InOneGroup(io, e)
    requires position < EndOf(xs) * io.blockSize
    ensures CellAt(SegmentsOf(io, xs), position) == Some(MappedCell(io, xs, position))
    decreases |xs|
  {
    hide U64, Geometry.ByteOffset, InOneGroup, MapAt, FindExtent, SegmentOf, CellAt, TotalSize, CellIn, Locate;
    if xs != [] {
      var init, last := xs[..|xs| - 1], xs[|xs| - 1];
      assert xs == init + [last];
      GapFreeIsOrdered(init);
      MapSnoc(init, last, BlockOf(io, position));
      SegmentsCoverBlocks(io, init);
      CellAtSnoc(SegmentsOf(io, init), SegmentOf(io, last), position);
      SegmentSize(io, last);
      if position < EndOf(init) * io.blockSize {
        PositionBefore(EndOf(init), position, io.blockSize);
        StreamReadsTheBlockMap(io, init, position);
      } else {
        MulDistribute(last.logicalBlockNumber, last.numberOfBlocks, io.blockSize);
        ExtentCell(io, last, position);
      }
    }
  }

  lemma SegmentSize(io: IoHandle, e: Extent)
    ensures SegmentOf(io, e).size == e.numberOfBlocks * io.blockSize
  {
  }

  // ---------- The stream in plain numbers ----------

  /** Each extent starts where the one before ends, the first one at block 0, and all numbers fit. */
  ghost predicate FollowOneAnother(xs: seq<Extent>) {
    && (forall i | 0 <= i < |xs| ::
          xs[i].logicalBlockNumber + xs[i].numberOfBlocks < 0x1_0000_0000_0000_0000
          && xs[i].logicalBlockNumber ==
             if i == 0 then 0 else xs[i - 1].logicalBlockNumber + xs[i - 1].numberOfBlocks)
  }

  lemma {:induction false} FollowersAreGapFree(xs: seq<Extent>)
    requires FollowOneAnother(xs)
    ensures InRange(xs) && GapFree(xs)
  {
    if xs != [] {
      var init := xs[..|xs| - 1];
      assert forall i | 0 <= i < |init| :: init[i] == xs[i];
      FollowersAreGapFree(init);
      assert xs[|xs| - 1].logicalBlockNumber == EndOf(init);
    }
  }

  /** Inside the i-th extent the stream reads the segment of that extent. */
  lemma {:induction false} StreamReadsTheSegment(io: IoHandle, xs: seq<Extent>, i: nat, position: nat)
    requires InRange(xs) && GapFree(xs) && i < |xs|
    requires xs[i].logicalBlockNumber * io.blockSize <= position < xs[i].End() * io.blockSize
    ensures CellAt(SegmentsOf(io, xs), position) ==
            Some(CellIn(SegmentOf(io, xs[i]), position - xs[i].logicalBlockNumber * io.blockSize))
    decreases |xs|
  {
    hide U64, Geometry.ByteOffset, SegmentOf, CellAt, TotalSize, CellIn;
    var init, last := xs[..|xs| - 1], xs[|xs| - 1];
    SegmentsCoverBlocks(io, init);
    CellAtSnoc(SegmentsOf(io, init), SegmentOf(io, last), position);
    SegmentSize(io, last);
    if i == |xs| - 1 {
      MulDistribute(last.logicalBlockNumber, last.numberOfBlocks, io.blockSize);
    } else {
      GapFreeIsOrdered(init);
      OrderedEnds(init);
      assert init[i] == xs[i];
      MulMono(xs[i].End(), EndOf(init), io.blockSize);
      StreamReadsTheSegment(io, init, i, position);
    }
  }

  /** A position inside an extent reads as zero if the flags of the extent are odd; otherwise, for an
      extent that starts at block r of group g, it reads the byte so far behind that block: g groups of
      blocks and r blocks, in bytes, and the distance from the start of the extent. */
  lemma StreamReadsTheExtent(io: IoHandle, xs: seq<Extent>, i: nat, g: nat, r: nat, position: nat)
    requires FollowOneAnother(xs) && i < |xs|
    requires var x := xs[i];
             && x.logicalBlockNumber * io.blockSize <= position
             && position < (x.logicalBlockNumber + x.numberOfBlocks) * io.blockSize
    requires r < Pow2(io.relativeBlockBits) && xs[i].physicalBlockNumber == g * Pow2(io.relativeBlockBits) + r
    requires g < 0x8000_0000 && (g * io.allocationGroupSize + r) * io.blockSize < 0x8000_0000_0000_0000
    ensures CellAt(SegmentsOf(io, xs), position) ==
            Some(if xs[i].rangeFlags % 2 == 1 then Zero
                 else StoredAt((g * io.allocationGroupSize + r) * io.blockSize
                               + (position - xs[i].logicalBlockNumber * io.blockSize)))
  {
    FollowersAreGapFree(xs);
    StreamReadsTheSegment(io, xs, i, position);
    io.ByteOffsetOf(g, r);
    hide Geometry.ByteOffset, CellAt;
  }
}
