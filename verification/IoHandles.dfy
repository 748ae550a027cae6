/** The volume's geometry, the file it is read from, and the address of a file system block. */
module IoHandles {
  import opened Integers
  import opened Collections

  const SECONDARY_FEATURE_FLAG_FILE_TYPE: nat := 0x200

  datatype Geometry = Geometry(
    formatVersion: int,
    secondaryFeatureFlags: nat,
    blockSize: nat,
    allocationGroupSize: nat,
    directoryBlockSize: nat,
    relativeBlockBits: nat)
  {
    /** The widths of the fields, with the bounds that reading the superblock leaves on them. */
    predicate Bounded() {
      blockSize <= 65536 && allocationGroupSize < TWO_31 && directoryBlockSize < TWO_32 && relativeBlockBits <= 30
    }

    /** Directory entries carry a file type byte. */
    predicate HasFileType() {
      formatVersion == 5 || secondaryFeatureFlags / SECONDARY_FEATURE_FLAG_FILE_TYPE % 2 == 1
    }

    /** The number of block numbers that the relative part can express. */
    function GroupSpan(): (span: nat)
      ensures span > 0
    {
      Pow2(relativeBlockBits)
    }

    function Group(block: nat): nat {
      DivNonNegative(block, GroupSpan());
      block / GroupSpan()
    }

    /** The allocation group of a block number, converted to a 32-bit int. */
    function GroupIndex(block: nat): int {
      Int32(Group(block))
    }

    function RelativeBlock(block: nat): (relative: nat)
      ensures relative < GroupSpan()
    {
      block % GroupSpan()
    }

    /** The position, in blocks, at which a block number is stored. */
    function FileBlock(block: nat): int {
      GroupIndex(block) * allocationGroupSize + RelativeBlock(block)
    }

    /** The byte offset of a block number, in the 64-bit arithmetic of the code. */
    function ByteOffset(block: nat): int {
      Int64(FileBlock(block) * blockSize)
    }

    // ---------- Where the arithmetic is exact ----------

    /** The group index fits an int and the byte offset a 64-bit offset. */
    predicate Addressable(block: nat) {
      Group(block) < TWO_31 && FileBlock(block) * blockSize < TWO_63
    }

    /** The relative part names a block that the allocation group has. */
    predicate InGroup(block: nat) {
      RelativeBlock(block) < allocationGroupSize <= GroupSpan()
    }

    lemma SplitBlock(block: nat)
      ensures block == Group(block) * GroupSpan() + RelativeBlock(block)
    {
    }

    /** An addressable block's offset is its position times the block size. */
    lemma ByteOffsetExact(block: nat)
      requires Addressable(block)
      ensures GroupIndex(block) == Group(block)
      ensures FileBlock(block) >= 0
      ensures ByteOffset(block) == FileBlock(block) * blockSize >= 0
    {
      hide Group, RelativeBlock, GroupSpan, Int32, Int64;
      MulNonNegative(Group(block), allocationGroupSize);
      MulNonNegative(FileBlock(block), blockSize);
    }

    /** Block r of group g stands behind g groups and r blocks. */
    lemma ByteOffsetOf(g: nat, r: nat)
      requires r < Pow2(relativeBlockBits) && g < 0x8000_0000
      requires (g * allocationGroupSize + r) * blockSize < 0x8000_0000_0000_0000
      ensures g * Pow2(relativeBlockBits) >= 0
      ensures Addressable(g * Pow2(relativeBlockBits) + r)
      ensures ByteOffset(g * Pow2(relativeBlockBits) + r) == (g * allocationGroupSize + r) * blockSize
    {
      MulNonNegative(g, Pow2(relativeBlockBits));
      MulNonNegative(g, allocationGroupSize);
      MulNonNegative(g * allocationGroupSize + r, blockSize);
      var block: nat := g * Pow2(relativeBlockBits) + r;
      DivModUnique(block, Pow2(relativeBlockBits), g, r);
      assert Group(block) == g && RelativeBlock(block) == r;
      hide Group, RelativeBlock, GroupSpan;
    }

    /** The translation is strictly monotone on the blocks that allocation groups have. */
    lemma FileBlockMonotone(a: nat, b: nat)
      requires a < b && InGroup(a) && InGroup(b) && Addressable(a) && Addressable(b)
      ensures FileBlock(a) < FileBlock(b)
    {
      hide Group, RelativeBlock, GroupSpan, Int32, Int64;
      SplitBlock(a);
      SplitBlock(b);
      ByteOffsetExact(a);
      ByteOffsetExact(b);
      CompareSplit(Group(a), RelativeBlock(a), Group(b), RelativeBlock(b), GroupSpan());
      if Group(a) < Group(b) {
        MulStep(Group(a), Group(b), allocationGroupSize);
      }
    }

    /** Distinct blocks of allocation groups are stored at distinct byte offsets. */
    lemma ByteOffsetInjective(a: nat, b: nat)
      requires a != b && InGroup(a) && InGroup(b) && Addressable(a) && Addressable(b) && blockSize > 0
      ensures ByteOffset(a) != ByteOffset(b)
    {
      hide InGroup, Addressable, FileBlock, ByteOffset;
      ByteOffsetExact(a);
      ByteOffsetExact(b);
      if a < b {
        FileBlockMonotone(a, b);
        MulStrict(FileBlock(a), FileBlock(b), blockSize);
      } else {
        FileBlockMonotone(b, a);
        MulStrict(FileBlock(b), FileBlock(a), blockSize);
      }
    }

    lemma RunInsideGroup(block: nat, k: nat)
      requires RelativeBlock(block) + k < GroupSpan()
      ensures Group(block + k) == Group(block)
      ensures FileBlock(block + k) == FileBlock(block) + k
    {
      SplitBlock(block);
      hide GroupSpan, Int32;
      DivModUnique(block + k, GroupSpan(), Group(block), RelativeBlock(block) + k);
    }

    /** A run of blocks inside one group is stored as one run of bytes. */
    lemma ByteOffsetContiguous(block: nat, k: nat)
      requires RelativeBlock(block) + k < GroupSpan()
      requires Addressable(block + k)
      ensures Addressable(block)
      ensures ByteOffset(block + k) == ByteOffset(block) + k * blockSize
    {
      RunInsideGroup(block, k);
      hide FileBlock, ByteOffset, Group;
      MulDistribute(FileBlock(block), k, blockSize);
      MulNonNegative(k, blockSize);
      ByteOffsetExact(block);
      ByteOffsetExact(block + k);
    }
  }

  type IoHandle = io: Geometry | io.Bounded() witness Geometry(4, 0, 4096, 5, 4096, 3)

  /** All bytes of the volume. */
  type File = seq<byte>

  /** Reads exactly size bytes; a short read is a failure. */
  function ReadAt(file: File, offset: int, size: nat): (data: Option<seq<byte>>)
    ensures data.Some? <==> 0 <= offset && offset + size <= |file|
    ensures data.Some? ==> |data.value| == size && forall i | 0 <= i < size :: data.value[i] == file[offset + i]
  {
    if 0 <= offset && offset + size <= |file| then Some(file[offset..offset + size]) else None
  }
}
