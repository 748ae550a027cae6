/** The data stream of an attribute's value. */
module AttributeStreams {
  import opened Integers
  import opened Bytes
  import opened Collections
  import opened IoHandles
  import opened Extents
  import opened DataStreams
  import opened AttributeValues
  import opened AttributesLeaf
  import opened Attributes

  /** The segments of a remote value: the whole extent, again and again, until the size is reached. */
  function RemoteSegments(io: IoHandle, x: Extent, size: nat): seq<Segment>
    requires io.blockSize > 0 && x.numberOfBlocks > 0
    decreases size
  {
    if size == 0 then []
    else
      ExtentBytes(io, x);
      var bytes := x.numberOfBlocks * io.blockSize;
      var n := if bytes > size then size else bytes;
      [Segment(io.ByteOffset(x.physicalBlockNumber), n, x.rangeFlags)] + RemoteSegments(io, x, size - n)
  }

  lemma ExtentBytes(io: IoHandle, x: Extent)
    requires io.blockSize > 0 && x.numberOfBlocks > 0
    ensures x.numberOfBlocks * io.blockSize > 0
  {
    MulAtLeast(x.numberOfBlocks, io.blockSize);
  }

  /** The value data that is set: none for an empty or a remote value. */
  function OwnData(attribute: Attribute): Option<seq<byte>> {
    if attribute.valueData == [] then None else Some(attribute.valueData)
  }

  /** A value has a stream if its own data is set or there is nothing to read, or if an extent holds
      its block and the version keeps no header in front of remote values. */
  predicate HasStream(io: IoHandle, extents: seq<Extent>, attribute: Attribute) {
    if attribute.valueDataBlock == 0 then attribute.valueDataSize == 0 || attribute.valueData != []
    else FindExtent(extents, attribute.valueDataBlock).Some? && io.formatVersion != 5
  }

  /** In plain terms: a value in block 0 has a stream if it is empty or data is set; one in another block
      if some extent holds that block and the version is not 5. */
  lemma HasStreamExactly(io: IoHandle, extents: seq<Extent>, attribute: Attribute)
    ensures HasStream(io, extents, attribute) <==>
            if attribute.valueDataBlock == 0 then attribute.valueDataSize == 0 || attribute.valueData != []
            else
              && io.formatVersion != 5
              && exists i :: 0 <= i < |extents|
                             && extents[i].logicalBlockNumber <= attribute.valueDataBlock
                             && attribute.valueDataBlock < extents[i].logicalBlockNumber + extents[i].numberOfBlocks
  {
    var found := FindExtent(extents, attribute.valueDataBlock);
    if found.Some? {
      assert extents[found.value].Contains(attribute.valueDataBlock);
    }
    hide FindExtent;
  }

  /** The attributes of a leaf: a local value always has a stream; a remote value that claims to stand
      in block 0 is taken for a local one, and has a stream exactly when it is empty. */
  lemma DecodedValueHasStreamExactly(io: IoHandle, extents: seq<Extent>, data: seq<byte>, offset: nat, flags: byte)
    requires DecodeValues(data, offset, flags).Some?
    ensures var attribute := DecodeValues(data, offset, flags).value;
            && (IsLocal(flags) ==> HasStream(io, extents, attribute))
            && (!IsLocal(flags) && attribute.valueDataBlock == 0 ==>
                  (HasStream(io, extents, attribute) <==> attribute.valueDataSize == 0))
  {
    hide StoredName, FindExtent;
  }

  /** The bytes of a remote attribute "user.a" of five bytes in block 0: it has no stream. */
  lemma RemoteValueInBlockZeroIsRefused(io: IoHandle, extents: seq<Extent>)
    ensures var data := ToBE(0, 4) + ToBE(5, 4) + [1] + [0x61];
            && DecodeValues(data, 0, 0) == Some(Attribute(USER_PREFIX + [0x61, 0], 5, [], 0))
            && !HasStream(io, extents, DecodeValues(data, 0, 0).value)
  {
    hide ToBE, DecodeValues;
    var data := ToBE(0, 4) + ToBE(5, 4) + [1] + [0x61];
    WrittenRemoteIsDecoded(data, 0, 0, [0x61], 0, 5);
    assert USER_PREFIX + [0x61] + [0] == USER_PREFIX + [0x61, 0];
    assert StoredName(0, [0x61]) == Some(USER_PREFIX + [0x61, 0]);
  }

  /** Where the value of an attribute is read from: its own data, or the extent that holds its block. */
  method GetValueDataStream(io: IoHandle, extents: seq<Extent>, attribute: Attribute) returns (stream: Option<Stream>)
    requires io.blockSize > 0
    ensures stream.Some? <==> HasStream(io, extents, attribute)
    ensures stream.Some? && attribute.valueDataBlock == 0 ==>
              && stream.value.source == Buffer(if attribute.valueData == [] then None else Some(attribute.valueData))
              && stream.value.segments == [Segment(0, attribute.valueDataSize, 0)]
    ensures stream.Some? && attribute.valueDataBlock != 0 ==>
              var x := extents[FindExtent(extents, attribute.valueDataBlock).value];
              && stream.value.source == Volume
              && stream.value.segments == RemoteSegments(io, x, attribute.valueDataSize)
  {
    hide Geometry.ByteOffset, FindExtent;
    if attribute.valueDataBlock == 0 {
      stream := InitializeFromData(OwnData(attribute), attribute.valueDataSize);
      return;
    }
    var extentIndex := LookUp(extents, attribute.valueDataBlock);
    if extentIndex >= |extents| {
      return None;
    }
    if io.formatVersion == 5 {
      return None;
    }
    var safe := new Stream(Volume);
    var extent := extents[extentIndex];
    ExtentBytes(io, extent);
    ghost var all := RemoteSegments(io, extent, attribute.valueDataSize);
    var remaining: nat := attribute.valueDataSize;
    while remaining > 0
      invariant remaining <= attribute.valueDataSize
      invariant extent == extents[extentIndex]
      invariant all == safe.segments + RemoteSegments(io, extent, remaining)
    {
      var offset := io.ByteOffset(extent.physicalBlockNumber);
      var size: nat := extent.numberOfBlocks * io.blockSize;
      if size > remaining {
        size := remaining;
      }
      ghost var before, rest := safe.segments, RemoteSegments(io, extent, remaining - size);
      safe.AppendSegment(offset, size, extent.rangeFlags);
      assert safe.segments + rest == before + ([Segment(offset, size, extent.rangeFlags)] + rest);
      remaining := remaining - size;
      if remaining > 0 {
        extent := extents[extentIndex];
      }
    }
    stream := Some(safe);
  }

  /** The segments add up to the size of the value. */
  lemma {:induction false} RemoteSizesAddUp(io: IoHandle, x: Extent, size: nat)
    requires io.blockSize > 0 && x.numberOfBlocks > 0
    ensures TotalSize(RemoteSegments(io, x, size)) == size
    decreases size
  {
    hide Geometry.ByteOffset;
    if size > 0 {
      ExtentBytes(io, x);
      var bytes := x.numberOfBlocks * io.blockSize;
      var n := if bytes > size then size else bytes;
      RemoteSizesAddUp(io, x, size - n);
      var segments := RemoteSegments(io, x, size);
      assert segments[1..] == RemoteSegments(io, x, size - n);
      TotalSizeSplit(segments);
    }
  }

  /** Every byte comes from the extent: past its end the reading starts over at its first block. */
  lemma {:induction false} RemoteRepeatsTheExtent(io: IoHandle, x: Extent, size: nat, position: nat)
    requires io.blockSize > 0 && x.numberOfBlocks > 0 && position < size
    ensures x.numberOfBlocks * io.blockSize > 0
    ensures CellAt(RemoteSegments(io, x, size), position) ==
            Some(if x.IsSparse() then Zero
                 else StoredAt(io.ByteOffset(x.physicalBlockNumber) + position % (x.numberOfBlocks * io.blockSize)))
    decreases size
  {
    hide Geometry.ByteOffset;
    ExtentBytes(io, x);
    var bytes := x.numberOfBlocks * io.blockSize;
    var segments := RemoteSegments(io, x, size);
    assert segments[1..] == RemoteSegments(io, x, size - (if bytes > size then size else bytes));
    if position < bytes {
      SmallModulo(position, bytes);
    } else {
      RemoteRepeatsTheExtent(io, x, size - bytes, position - bytes);
      ModuloShift(position, bytes);
    }
  }

  lemma SmallModulo(x: nat, m: nat)
    requires x < m
    ensures x % m == x
  {
  }

  lemma ModuloShift(x: nat, m: nat)
    requires m > 0 && x >= m
    ensures (x - m) % m == x % m
  {
    var q, r := x / m, x % m;
    assert x == q * m + r;
    if q > 0 {
      MulDistribute(q - 1, 1, m);
      MulNonNegative(q - 1, m);
      DivModUnique(x - m, m, q - 1, r);
    }
  }

  /** The byte of the fork at which a value's byte should be: the value starts at its block. */
  function ValueCell(io: IoHandle, extents: seq<Extent>, block: nat, position: nat): Cell
    requires io.blockSize > 0
  {
    MulNonNegative(block, io.blockSize);
    MappedCell(io, extents, block * io.blockSize + position)
  }

  /** A value that starts at its extent's first block and fits in the extent is one segment, at the
      translated offset of that extent. */
  lemma FittingValueIsOneSegment(io: IoHandle, x: Extent, size: nat)
    requires io.blockSize > 0 && x.numberOfBlocks > 0 && 0 < size <= x.numberOfBlocks * io.blockSize
    ensures RemoteSegments(io, x, size) == [Segment(io.ByteOffset(x.physicalBlockNumber), size, x.rangeFlags)]
  {
    hide Geometry.ByteOffset;
    assert RemoteSegments(io, x, 0) == [];
  }

  /** Then every byte of it is the byte that the block map of the fork gives. */
  lemma FittingValueIsRight(io: IoHandle, extents: seq<Extent>, block: nat, size: nat, position: nat)
    requires io.blockSize > 0 && FindExtent(extents, block).Some? && position < size
    requires var x := extents[FindExtent(extents, block).value];
             && block == x.logicalBlockNumber && x.End() < TWO_64
             && size <= x.numberOfBlocks * io.blockSize && InOneGroup(io, x)
             && OnlyExtent(extents, FindExtent(extents, block).value)
    ensures var x := extents[FindExtent(extents, block).value];
            CellAt(RemoteSegments(io, x, size), position) == Some(ValueCell(io, extents, block, position))
  {
    hide Geometry.ByteOffset, InOneGroup, CellAt, RemoteSegments;
    var index := FindExtent(extents, block).value;
    var x := extents[index];
    RemoteRepeatsTheExtent(io, x, size, position);
    SmallModulo(position, x.numberOfBlocks * io.blockSize);
    MulDistribute(x.logicalBlockNumber, x.numberOfBlocks, io.blockSize);
    var at := block * io.blockSize + position;
    ExtentCell(io, x, at);
    var b := BlockOf(io, at);
    OnlyExtentFound(extents, index, b);
    CellOf(io, x, position);
  }

  lemma CellOf(io: IoHandle, x: Extent, position: nat)
    ensures CellIn(SegmentOf(io, x), position) ==
            if x.IsSparse() then Zero else StoredAt(io.ByteOffset(x.physicalBlockNumber) + position)
  {
    hide Geometry.ByteOffset;
  }

  /** No extent in front of the given one overlaps it. */
  ghost predicate OnlyExtent(extents: seq<Extent>, index: nat)
    requires index < |extents|
  {
    forall i, b: nat | 0 <= i < index && extents[index].Contains(b) :: !extents[i].Contains(b)
  }

  lemma OnlyExtentFound(extents: seq<Extent>, index: nat, block: nat)
    requires index < |extents| && OnlyExtent(extents, index) && extents[index].Contains(block)
    ensures FindExtent(extents, block) == Some(index)
  {
  }

  /** The first byte of a stored value is read from the right place exactly when the value starts at
      the first block of its extent. */
  lemma FirstByteIsRightExactly(io: IoHandle, extents: seq<Extent>, block: nat, size: nat)
    requires io.blockSize > 0 && size > 0 && FindExtent(extents, block).Some?
    requires var x := extents[FindExtent(extents, block).value]; !x.IsSparse() && InOneGroup(io, x)
    ensures var x := extents[FindExtent(extents, block).value];
            CellAt(RemoteSegments(io, x, size), 0) == Some(ValueCell(io, extents, block, 0)) <==>
            block == x.logicalBlockNumber
  {
    hide CellAt, RemoteSegments, Geometry.ByteOffset, Geometry.RelativeBlock, Geometry.GroupSpan, Geometry.Addressable;
    var x := extents[FindExtent(extents, block).value];
    var k := block - x.logicalBlockNumber;
    ExtentBytes(io, x);
    RemoteRepeatsTheExtent(io, x, size, 0);
    SmallModulo(0, x.numberOfBlocks * io.blockSize);
    io.ByteOffsetContiguous(x.physicalBlockNumber, k);
    MulNonNegative(block, io.blockSize);
    DivModUnique(block * io.blockSize, io.blockSize, block, 0);
    if k > 0 {
      MulAtLeast(k, io.blockSize);
    }
  }

  /** A value that is larger than its extent is wrong from the end of the extent on, unless the map
      puts the next block where the extent begins. */
  lemma OversizedValueIsWrong(io: IoHandle, extents: seq<Extent>, block: nat, size: nat)
    requires io.blockSize > 0 && FindExtent(extents, block).Some?
    requires var x := extents[FindExtent(extents, block).value];
             && !x.IsSparse() && block == x.logicalBlockNumber && size > x.numberOfBlocks * io.blockSize
             && ValueCell(io, extents, block, ExtentSize(io, x)) != StoredAt(io.ByteOffset(x.physicalBlockNumber))
    ensures var x := extents[FindExtent(extents, block).value];
            var position := ExtentSize(io, x);
            CellAt(RemoteSegments(io, x, size), position) != Some(ValueCell(io, extents, block, position))
  {
    hide CellAt, RemoteSegments, Geometry.ByteOffset, ValueCell;
    var x := extents[FindExtent(extents, block).value];
    ExtentBytes(io, x);
    var position := x.numberOfBlocks * io.blockSize;
    RemoteRepeatsTheExtent(io, x, size, position);
    DivModUnique(position, position, 1, 0);
  }

  /** Every byte of the value is read from where the block map puts it. */
  ghost predicate ValueIsRight(io: IoHandle, extents: seq<Extent>, block: nat, size: nat)
    requires io.blockSize > 0 && FindExtent(extents, block).Some?
  {
    var x := extents[FindExtent(extents, block).value];
    forall position: nat | position < size ::
      CellAt(RemoteSegments(io, x, size), position) == Some(ValueCell(io, extents, block, position))
  }

  function ExtentSize(io: IoHandle, x: Extent): (size: nat)
    ensures size == x.numberOfBlocks * io.blockSize
  {
    MulNonNegative(x.numberOfBlocks, io.blockSize);
    x.numberOfBlocks * io.blockSize
  }

  /** The whole value is read from the right places exactly when it starts at the first block of its
      extent and fits in the extent. The block map must not use the start of the extent twice. */
  lemma ValueIsRightExactly(io: IoHandle, extents: seq<Extent>, block: nat, size: nat)
    requires io.blockSize > 0 && size > 0 && FindExtent(extents, block).Some?
    requires var index := FindExtent(extents, block).value;
             var x := extents[index];
             && !x.IsSparse() && x.End() < TWO_64 && InOneGroup(io, x) && OnlyExtent(extents, index)
             && ValueCell(io, extents, x.logicalBlockNumber, ExtentSize(io, x)) !=
                StoredAt(io.ByteOffset(x.physicalBlockNumber))
    ensures var x := extents[FindExtent(extents, block).value];
            ValueIsRight(io, extents, block, size) <==>
            block == x.logicalBlockNumber && size <= x.numberOfBlocks * io.blockSize
  {
    hide CellAt, RemoteSegments, Geometry.ByteOffset, ValueCell, InOneGroup, OnlyExtent, FindExtent;
    var x := extents[FindExtent(extents, block).value];
    var bytes := x.numberOfBlocks * io.blockSize;
    if block == x.logicalBlockNumber && size <= bytes {
      forall position: nat | position < size
        ensures CellAt(RemoteSegments(io, x, size), position) == Some(ValueCell(io, extents, block, position))
      {
        FittingValueIsRight(io, extents, block, size, position);
      }
    } else {
      FirstByteIsRightExactly(io, extents, block, size);
      if block == x.logicalBlockNumber {
        OversizedValueIsWrong(io, extents, block, size);
      }
    }
  }

  /** A fork as a file system keeps it: stored extents in logical order, each inside one allocation
      group and made of blocks that the group has, no physical block in two of them. */
  ghost predicate SoundFork(io: IoHandle, extents: seq<Extent>) {
    && (forall x | x in extents :: !x.IsSparse() && x.End() < TWO_64 && InOneGroup(io, x) && BlocksInGroup(io, x))
    && forall i, j | 0 <= i < j < |extents| :: Apart(extents[i], extents[j])
  }

  ghost predicate BlocksInGroup(io: IoHandle, x: Extent) {
    forall block: nat | x.physicalBlockNumber <= block < x.physicalBlockNumber + x.numberOfBlocks :: io.InGroup(block)
  }

  /** The second extent is logically behind the first, and shares no physical block with it. */
  predicate Apart(x: Extent, y: Extent) {
    && x.End() <= y.logicalBlockNumber
    && (|| x.physicalBlockNumber + x.numberOfBlocks <= y.physicalBlockNumber
        || y.physicalBlockNumber + y.numberOfBlocks <= x.physicalBlockNumber)
  }

  /** In a sound fork a stored value is read from the right places exactly when it starts at the first
      block of an extent and fits in it. */
  lemma ValueIsRightInSoundFork(io: IoHandle, extents: seq<Extent>, block: nat, size: nat)
    requires io.blockSize > 0 && size > 0 && SoundFork(io, extents) && FindExtent(extents, block).Some?
    ensures var x := extents[FindExtent(extents, block).value];
            ValueIsRight(io, extents, block, size) <==>
            block == x.logicalBlockNumber && size <= x.numberOfBlocks * io.blockSize
  {
    hide CellAt, RemoteSegments, ValueCell, InOneGroup, BlocksInGroup, Geometry.ByteOffset, ValueIsRight, OnlyExtent,
         FindExtent;
    var index := FindExtent(extents, block).value;
    ExtentsAreApart(io, extents, index);
    NextBlockIsElsewhere(io, extents, index);
    ValueIsRightExactly(io, extents, block, size);
  }

  lemma ExtentsAreApart(io: IoHandle, extents: seq<Extent>, index: nat)
    requires SoundFork(io, extents) && index < |extents|
    ensures OnlyExtent(extents, index)
  {
    hide InOneGroup, BlocksInGroup;
    forall i, b: nat | 0 <= i < index && extents[index].Contains(b)
      ensures !extents[i].Contains(b)
    {
      assert Apart(extents[i], extents[index]);
    }
  }

  /** The block behind an extent is not where the extent begins. */
  lemma NextBlockIsElsewhere(io: IoHandle, extents: seq<Extent>, index: nat)
    requires io.blockSize > 0 && SoundFork(io, extents) && index < |extents| && extents[index].numberOfBlocks > 0
    ensures var x := extents[index];
            ValueCell(io, extents, x.logicalBlockNumber, ExtentSize(io, x)) !=
            StoredAt(io.ByteOffset(x.physicalBlockNumber))
  {
    hide Geometry.ByteOffset, Geometry.Addressable, Geometry.InGroup, Geometry.RelativeBlock, Geometry.GroupSpan,
         FindExtent;
    var x := extents[index];
    var at := x.logicalBlockNumber * io.blockSize + x.numberOfBlocks * io.blockSize;
    MulDistribute(x.logicalBlockNumber, x.numberOfBlocks, io.blockSize);
    DivModUnique(at, io.blockSize, x.End(), 0);
    var found := FindExtent(extents, x.End());
    if found.Some? {
      var y := extents[found.value];
      var k := x.End() - y.logicalBlockNumber;
      assert found.value < index ==> Apart(y, x);
      assert index < found.value ==> Apart(x, y);
      FirstBlockUsable(io, x, 0);
      FirstBlockUsable(io, y, k);
      io.ByteOffsetInjective(x.physicalBlockNumber, y.physicalBlockNumber + k);
    }
  }

  lemma FirstBlockUsable(io: IoHandle, x: Extent, k: nat)
    requires InOneGroup(io, x) && BlocksInGroup(io, x) && !x.IsSparse() && k < x.numberOfBlocks
    ensures io.InGroup(x.physicalBlockNumber + k) && io.Addressable(x.physicalBlockNumber + k)
  {
    hide Geometry.InGroup, Geometry.Addressable;
  }

  // ---------- A value inside an extent ----------

  const EXAMPLE_IO: IoHandle := Geometry(4, 0, 4096, 16, 4096, 4)

  /** Two blocks of a fork, at blocks 2 and 3 of the first allocation group. */
  const EXAMPLE_EXTENT: Extent := Extent(0, 2, 2, 0)

  lemma ExampleBlock(block: nat)
    requires block < 16
    ensures EXAMPLE_IO.GroupSpan() == 16 && EXAMPLE_IO.RelativeBlock(block) == block
    ensures EXAMPLE_IO.ByteOffset(block) == block * 4096
    ensures EXAMPLE_IO.Addressable(block) && EXAMPLE_IO.InGroup(block)
  {
    assert Pow2(4) == 16;
  }

  lemma ExampleBlocksAreUsable()
    ensures forall block: nat | 2 <= block < 4 :: EXAMPLE_IO.Addressable(block) && EXAMPLE_IO.InGroup(block)
    ensures EXAMPLE_IO.RelativeBlock(2) == 2 && EXAMPLE_IO.GroupSpan() == 16
  {
    hide Geometry.Addressable, Geometry.InGroup, Geometry.RelativeBlock, Geometry.GroupSpan;
    ExampleBlock(2);
    ExampleBlock(3);
  }

  lemma ExampleForkIsSound()
    ensures SoundFork(EXAMPLE_IO, [EXAMPLE_EXTENT])
  {
    hide Geometry.Addressable, Geometry.InGroup, Geometry.RelativeBlock, Geometry.GroupSpan;
    ExampleBlocksAreUsable();
    assert InOneGroup(EXAMPLE_IO, EXAMPLE_EXTENT);
    assert BlocksInGroup(EXAMPLE_IO, EXAMPLE_EXTENT);
    hide InOneGroup, BlocksInGroup;
  }

  /** A value in block 1 of this fork starts at the second block of its extent: its first byte is read
      from block 2 of the volume, and stands in block 3. */
  lemma ValueInsideExtentIsWrong()
    ensures SoundFork(EXAMPLE_IO, [EXAMPLE_EXTENT]) && FindExtent([EXAMPLE_EXTENT], 1) == Some(0)
    ensures CellAt(RemoteSegments(EXAMPLE_IO, EXAMPLE_EXTENT, 1), 0) == Some(StoredAt(2 * 4096))
    ensures ValueCell(EXAMPLE_IO, [EXAMPLE_EXTENT], 1, 0) == StoredAt(3 * 4096)
  {
    hide SoundFork, CellAt, RemoteSegments, Geometry.ByteOffset;
    ExampleForkIsSound();
    ExampleBlock(2);
    ExampleBlock(3);
    RemoteRepeatsTheExtent(EXAMPLE_IO, EXAMPLE_EXTENT, 1, 0);
    assert FindExtent([EXAMPLE_EXTENT], 1) == Some(0);
  }
}
