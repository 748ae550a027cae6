/** From the extents tree of an inode to the bytes of the file. */
module FileData {
  import opened Integers
  import opened Collections
  import opened IoHandles
  import opened Extents
  import opened ExtentBtree
  import opened DataStreams

  /** The completed list consists of holes and of extents that the leaves hold. */
  lemma {:induction false} AddedIsHoleOrLeaf(raw: seq<Extent>, e: Extent)
    requires e in AddExtents([], raw, true)
    ensures e.IsSparse() || e in raw
    decreases |raw|
  {
    if raw != [] {
      var init, x := raw[..|raw| - 1], raw[|raw| - 1];
      if e != x && e in AddExtents([], init, true) {
        AddedIsHoleOrLeaf(init, e);
      }
    }
  }

  lemma CompletedIsHoleOrLeaf(raw: seq<Extent>, numberOfBlocks: nat, e: Extent)
    requires e in FillTail(AddExtents([], raw, true), numberOfBlocks)
    ensures e.IsSparse() || e in raw
  {
    hide AddExtents, U32, U64;
    var xs := AddExtents([], raw, true);
    if e in xs {
      AddedIsHoleOrLeaf(raw, e);
    }
  }

  lemma SparseIsInOneGroup(io: IoHandle, e: Extent)
    ensures e.IsSparse() ==> InOneGroup(io, e)
  {
  }

  lemma CompletedIsInRange(raw: seq<Extent>, numberOfBlocks: nat)
    requires InRange(raw) && Ordered(raw) && GapsFit(raw) && numberOfBlocks < TWO_64
    requires TailLength(AddExtents([], raw, true), numberOfBlocks) < TWO_32
    ensures InRange(FillTail(AddExtents([], raw, true), numberOfBlocks))
  {
    hide AddExtents, MapAt;
    FilledMeansTheSame(raw, 0);
    var xs := AddExtents([], raw, true);
    if EndOf(xs) < numberOfBlocks {
      FillTailShape(xs, numberOfBlocks);
    }
  }

  lemma CompletedIsInGroups(io: IoHandle, raw: seq<Extent>, numberOfBlocks: nat)
    requires forall e | e in raw :: InOneGroup(io, e)
    ensures forall e | e in FillTail(AddExtents([], raw, true), numberOfBlocks) :: InOneGroup(io, e)
  {
    hide AddExtents, FillTail, InOneGroup;
    forall e | e in FillTail(AddExtents([], raw, true), numberOfBlocks)
      ensures InOneGroup(io, e)
    {
      CompletedIsHoleOrLeaf(raw, numberOfBlocks, e);
      SparseIsInOneGroup(io, e);
    }
  }

  /** The stream of the list completed from extents in order yields the bytes that those map. */
  lemma StreamReadsTheCompletedList(io: IoHandle, raw: seq<Extent>, numberOfBlocks: nat, position: nat)
    requires io.blockSize > 0
    requires InRange(raw) && Ordered(raw) && GapsFit(raw) && numberOfBlocks < TWO_64
    requires TailLength(AddExtents([], raw, true), numberOfBlocks) < TWO_32
    requires forall e | e in raw :: InOneGroup(io, e)
    requires position < CompletedEnd(raw, numberOfBlocks) * io.blockSize
    ensures var all := FillTail(AddExtents([], raw, true), numberOfBlocks);
            && TotalSize(SegmentsOf(io, all)) == CompletedEnd(raw, numberOfBlocks) * io.blockSize
            && CellAt(SegmentsOf(io, all), position) == Some(MappedCell(io, raw, position))
  {
    hide AddExtents, FillTail, GapFree, Ordered, GapsFit, EndOf, MapAt, InOneGroup, TotalSize, CellAt, SegmentsOf,
         TailLength;
    var all := FillTail(AddExtents([], raw, true), numberOfBlocks);
    CompletedListMeansTheSame(raw, numberOfBlocks, BlockOf(io, position));
    CompletedIsInRange(raw, numberOfBlocks);
    CompletedIsInGroups(io, raw, numberOfBlocks);
    SegmentsCoverBlocks(io, all);
    StreamReadsTheBlockMap(io, all, position);
  }

  /** Reading a file whose extents are in a tree: the stream built from the completed list yields,
      at every position of the blocks it covers, the byte that the leaves of the tree map there,
      and zero where they map nothing. */
  lemma StreamReadsTheLeaves(io: IoHandle, file: File, maximumDepth: nat, data: seq<byte>, numberOfBlocks: nat,
                             position: nat)
    requires io.blockSize > 0
    requires RootExtents(io, file, maximumDepth, data).Some?
    requires var raw := RootExtents(io, file, maximumDepth, data).value;
             && Ordered(raw) && GapsFit(raw) && numberOfBlocks < TWO_64
             && TailLength(AddExtents([], raw, true), numberOfBlocks) < TWO_32
             && forall e | e in raw :: InOneGroup(io, e)
    requires position < CompletedEnd(RootExtents(io, file, maximumDepth, data).value, numberOfBlocks) * io.blockSize
    ensures var raw := RootExtents(io, file, maximumDepth, data).value;
            var all := FillTail(AddExtents([], raw, true), numberOfBlocks);
            && TotalSize(SegmentsOf(io, all)) == CompletedEnd(raw, numberOfBlocks) * io.blockSize
            && CellAt(SegmentsOf(io, all), position) == Some(MappedCell(io, raw, position))
  {
    LeavesInRange(io, file, maximumDepth, data);
    hide RootExtents, AddExtents, FillTail, GapFree, Ordered, GapsFit, EndOf, MapAt, InOneGroup, TotalSize, CellAt,
         SegmentsOf, TailLength, MappedCell, CompletedEnd;
    StreamReadsTheCompletedList(io, RootExtents(io, file, maximumDepth, data).value, numberOfBlocks, position);
  }

  /** The number of blocks that a file of a size takes. */
  function BlocksFor(io: IoHandle, size: nat): nat
    requires io.blockSize > 0
  {
    DivNonNegative(size, io.blockSize);
    size / io.blockSize + (if size % io.blockSize != 0 then 1 else 0)
  }

  /** Rounding up to blocks covers the size, by less than a block. */
  lemma BlocksCover(io: IoHandle, size: nat)
    requires io.blockSize > 0
    ensures BlocksFor(io, size) <= size
    ensures size <= BlocksFor(io, size) * io.blockSize < size + io.blockSize
  {
    var q, r := size / io.blockSize, size % io.blockSize;
    assert size == q * io.blockSize + r;
    MulDistribute(q, 1, io.blockSize);
    MulAtLeast(q, io.blockSize);
  }

  lemma CompletedEndCovers(io: IoHandle, raw: seq<Extent>, numberOfBlocks: nat)
    ensures numberOfBlocks * io.blockSize <= CompletedEnd(raw, numberOfBlocks) * io.blockSize
    ensures EndOf(raw) <= numberOfBlocks ==> CompletedEnd(raw, numberOfBlocks) == numberOfBlocks
  {
    hide EndOf;
    MulMono(numberOfBlocks, CompletedEnd(raw, numberOfBlocks), io.blockSize);
  }

  /** A file of any size, whose extents are in a tree: its stream covers it, by less than one block more
      unless the extents reach further; reading yields every byte below the size as the leaves map it,
      and nothing from there on. */
  lemma FileIsReadToItsSize(io: IoHandle, file: File, maximumDepth: nat, data: seq<byte>, size: nat, position: nat)
    requires io.blockSize > 0 && size < TWO_64
    requires RootExtents(io, file, maximumDepth, data).Some?
    requires var raw := RootExtents(io, file, maximumDepth, data).value;
             && Ordered(raw) && GapsFit(raw)
             && TailLength(AddExtents([], raw, true), BlocksFor(io, size)) < TWO_32
             && forall e | e in raw :: InOneGroup(io, e)
    ensures var raw := RootExtents(io, file, maximumDepth, data).value;
            var segments := SegmentsOf(io, FillTail(AddExtents([], raw, true), BlocksFor(io, size)));
            && (size > 0 ==> size <= TotalSize(segments))
            && (size > 0 && EndOf(raw) <= BlocksFor(io, size) ==> TotalSize(segments) < size + io.blockSize)
            && ReadCell(segments, size, position) ==
               if position < size then Some(MappedCell(io, raw, position)) else None
  {
    hide RootExtents, AddExtents, FillTail, GapFree, Ordered, GapsFit, EndOf, MapAt, InOneGroup, TotalSize, CellAt,
         SegmentsOf, TailLength, MappedCell, BlocksFor, CompletedEnd;
    var raw := RootExtents(io, file, maximumDepth, data).value;
    BlocksCover(io, size);
    CompletedEndCovers(io, raw, BlocksFor(io, size));
    if position < size {
      StreamReadsTheLeaves(io, file, maximumDepth, data, BlocksFor(io, size), position);
    }
    if size > 0 {
      StreamReadsTheLeaves(io, file, maximumDepth, data, BlocksFor(io, size), 0);
    }
  }

  /** The requirements of the above on the extents of the leaves. */
  ghost predicate Readable(io: IoHandle, raw: seq<Extent>, size: nat)
    requires io.blockSize > 0
  {
    && Ordered(raw) && GapsFit(raw) && (forall e | e in raw :: InOneGroup(io, e))
    && TailLength(AddExtents([], raw, true), BlocksFor(io, size)) < TWO_32
  }

  /** The segments that the stream of a file of a size is made of. */
  function FileSegments(io: IoHandle, raw: seq<Extent>, size: nat): seq<Segment>
    requires io.blockSize > 0
  {
    SegmentsOf(io, FillTail(AddExtents([], raw, true), BlocksFor(io, size)))
  }

  /** In plain numbers: block k of a leaf extent, at block r of group g, is read from g groups of blocks
      and r blocks, in bytes, and the position in the block. */
  lemma FileReadsTheLeafBlock(io: IoHandle, file: File, maximumDepth: nat, data: seq<byte>, raw: seq<Extent>, size: nat,
                              i: nat, k: nat, g: nat, r: nat, inBlock: nat, position: nat)
    requires io.blockSize > 0 && size < TWO_64
    requires RootExtents(io, file, maximumDepth, data) == Some(raw) && Readable(io, raw, size)
    requires i < |raw| && k < raw[i].numberOfBlocks && inBlock < io.blockSize
    requires position == (raw[i].logicalBlockNumber + k) * io.blockSize + inBlock && position < size
    requires raw[i].physicalBlockNumber + k == g * Pow2(io.relativeBlockBits) + r && r < Pow2(io.relativeBlockBits)
    requires g < 0x8000_0000 && (g * io.allocationGroupSize + r) * io.blockSize < 0x8000_0000_0000_0000
    ensures ReadCell(FileSegments(io, raw, size), size, position) ==
            Some(if raw[i].rangeFlags % 2 == 1 then Zero
                 else StoredAt((g * io.allocationGroupSize + r) * io.blockSize + inBlock))
  {
    FileCell(io, file, maximumDepth, data, raw, size, position);
    hide RootExtents, FileSegments, ReadCell, Readable, MappedCell;
    MappedCellOf(io, raw, i, k, g, r, inBlock, position);
  }

  lemma FileCell(io: IoHandle, file: File, maximumDepth: nat, data: seq<byte>, raw: seq<Extent>, size: nat,
                 position: nat)
    requires io.blockSize > 0 && size < TWO_64 && position < size
    requires RootExtents(io, file, maximumDepth, data) == Some(raw) && Readable(io, raw, size)
    ensures InRange(raw) && Ordered(raw)
    ensures ReadCell(FileSegments(io, raw, size), size, position) == Some(MappedCell(io, raw, position))
  {
    LeavesInRange(io, file, maximumDepth, data);
    hide RootExtents, AddExtents, FillTail, GapsFit, InOneGroup, SegmentsOf, ReadCell, TailLength, BlocksFor,
         MappedCell,
         TotalSize, Ordered, InRange;
    FileIsReadToItsSize(io, file, maximumDepth, data, size, position);
  }

  lemma MappedCellOf(io: IoHandle, xs: seq<Extent>, i: nat, k: nat, g: nat, r: nat, inBlock: nat, position: nat)
    requires io.blockSize > 0 && InRange(xs) && Ordered(xs)
    requires i < |xs| && k < xs[i].numberOfBlocks && inBlock < io.blockSize
    requires xs[i].physicalBlockNumber + k == g * Pow2(io.relativeBlockBits) + r && r < Pow2(io.relativeBlockBits)
    requires g < 0x8000_0000 && (g * io.allocationGroupSize + r) * io.blockSize < 0x8000_0000_0000_0000
    requires position == (xs[i].logicalBlockNumber + k) * io.blockSize + inBlock
    ensures MappedCell(io, xs, position) ==
            if xs[i].rangeFlags % 2 == 1 then Zero
            else StoredAt((g * io.allocationGroupSize + r) * io.blockSize + inBlock)
  {
    hide Geometry.ByteOffset, Ordered, InRange, FindExtent;
    var block := xs[i].logicalBlockNumber + k;
    DivModUnique(position, io.blockSize, block, inBlock);
    io.ByteOffsetOf(g, r);
    OnlyOneContains(xs, i, block);
  }

  /** In an ordered list no other extent contains a block of the i-th one. */
  lemma {:induction false} OnlyOneContains(xs: seq<Extent>, i: nat, block: nat)
    requires InRange(xs) && Ordered(xs) && i < |xs| && xs[i].Contains(block)
    ensures FindExtent(xs, block) == Some(i)
    decreases |xs|
  {
    hide FindExtent;
    var init, last := xs[..|xs| - 1], xs[|xs| - 1];
    assert xs == init + [last];
    FindSnoc(init, last, block);
    if i == |xs| - 1 {
      MapBeyondEnd(init, block);
    } else {
      assert init[i] == xs[i];
      OnlyOneContains(init, i, block);
    }
  }
}
