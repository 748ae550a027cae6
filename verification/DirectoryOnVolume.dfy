/** What a directory inode is listed as, by the form of its data, for directories written on a volume. */
module DirectoryOnVolume {
  import opened Integers
  import opened Bytes
  import opened Collections
  import opened IoHandles
  import opened Extents
  import opened Inodes
  import opened DirectoryLayout
  import opened BlockDirectoryFormat
  import BlockDirectory
  import Directory
  import DirectoryTable
  import DirectoryTableFormat

  /** An inode in another form than the three supported ones is refused. */
  lemma UnsupportedForkIsRefused(io: IoHandle, file: File)
    requires io.directoryBlockSize > 0
    ensures Directory.Listing(io, file, Unsupported) == None
  {
  }

  /** A directory written in short form inside the inode is listed as its entries. */
  lemma InlineDirectoryIsListed(io: IoHandle, file: File, inodeSize: nat, parent: nat, entries: seq<ShortEntry>)
    requires io.directoryBlockSize > 0
    requires inodeSize in {4, 8} && |entries| < 256 && ValidEntries(entries, inodeSize)
             && parent < InodeLimit(inodeSize)
    ensures Directory.Listing(io, file, InlineData(FormatTable(io, inodeSize, parent, entries))) ==
            Some(Entries(entries))
  {
    hide DirectoryTable.ParseTable, FormatTable;
    DirectoryTableFormat.ParseFormattedTable(io, inodeSize, parent, entries);
  }

  // ---------- Directories in blocks ----------

  /** A directory block, and what stands around its slots. */
  datatype WrittenBlock = WrittenBlock(header: BlockDirectory.Header, headerRest: seq<byte>, slots: seq<Slot>,
                                       hashes: seq<byte>, unusedCount: seq<byte>)
  {
    ghost predicate Valid(io: IoHandle) {
      && header.formatVersion in {2, 3} && |headerRest| == HeaderBytes(header.formatVersion) - 4
      && AllValid(io, slots) && AllRecognizable(slots)
      && (header.hasFooter ==> |hashes| % 8 == 0 && |hashes| / 8 < 0x1_0000_0000 && |unusedCount| == 4)
    }

    function Trailer(): seq<byte> {
      if header.hasFooter then hashes + ToBE(|hashes| / 8, 4) + unusedCount else []
    }

    ghost function Bytes(io: IoHandle): seq<byte>
      requires Valid(io)
    {
      FormatBlock(io, header, headerRest, slots, Trailer())
    }
  }

  /** The block stands at an offset of the volume, and fills a file system block. */
  ghost predicate StandsAt(io: IoHandle, file: File, at: nat, block: WrittenBlock) {
    && block.Valid(io) && at + io.blockSize <= |file|
    && file[at..at + io.blockSize] == block.Bytes(io)
  }

  /** The blocks of an extent hold directory blocks: block k stands behind as many whole groups as the
      upper part of the extent's block number says, and behind as many blocks as the lower part, plus k. */
  ghost predicate ExtentHolds(io: IoHandle, file: File, x: Extent, blocks: seq<WrittenBlock>) {
    var g, r := x.physicalBlockNumber / Pow2(io.relativeBlockBits), x.physicalBlockNumber % Pow2(io.relativeBlockBits);
    && 0 <= g < 0x8000_0000 && 0 <= (g * io.allocationGroupSize + r) * io.blockSize < 0x8000_0000_0000_0000
    && |blocks| == x.numberOfBlocks < 0x1_0000_0000
    && forall k: nat | k < |blocks| ::
         StandsAt(io, file, (g * io.allocationGroupSize + r) * io.blockSize + k * io.blockSize, blocks[k])
  }

  function ListedBlocks(blocks: seq<WrittenBlock>): seq<BlockDirectory.Entry> {
    if blocks == [] then [] else Listing(blocks[0].slots) + ListedBlocks(blocks[1..])
  }

  function ListedExtents(contents: seq<seq<WrittenBlock>>): seq<BlockDirectory.Entry> {
    if contents == [] then [] else ListedBlocks(contents[0]) + ListedExtents(contents[1..])
  }

  lemma WrittenBlockIsListed(io: IoHandle, file: File, at: nat, block: WrittenBlock)
    requires StandsAt(io, file, at, block)
    ensures Directory.BlockListing(io, file, at) == Some(Listing(block.slots))
  {
    assert |block.Bytes(io)| >= 16;
    hide BlockDirectory.Parse, FormatBlock, Listing;
    assert ReadAt(file, at, io.blockSize) == Some(file[at..at + io.blockSize]);
    ParseFormattedBlock(io, block.header, block.headerRest, block.slots, block.Trailer(), block.hashes,
      block.unusedCount);
  }

  lemma {:induction false} BlocksAreListed(io: IoHandle, file: File, at: nat, blocks: seq<WrittenBlock>)
    requires io.directoryBlockSize == io.blockSize
    requires forall k: nat | k < |blocks| :: StandsAt(io, file, at + k * io.blockSize, blocks[k])
    ensures Directory.ConcatBlocks(io, file, at, |blocks|) == Some(ListedBlocks(blocks))
    decreases |blocks|
  {
    hide StandsAt, Directory.BlockListing;
    if blocks != [] {
      assert StandsAt(io, file, at + 0 * io.blockSize, blocks[0]);
      WrittenBlockIsListed(io, file, at, blocks[0]);
      forall k: nat | k < |blocks[1..]|
        ensures StandsAt(io, file, at + io.blockSize + k * io.blockSize, blocks[1..][k])
      {
        MulDistribute(k, 1, io.blockSize);
        assert StandsAt(io, file, at + (k + 1) * io.blockSize, blocks[k + 1]);
      }
      BlocksAreListed(io, file, at + io.blockSize, blocks[1..]);
    }
  }

  lemma ExtentIsListed(io: IoHandle, file: File, x: Extent, blocks: seq<WrittenBlock>)
    requires io.directoryBlockSize == io.blockSize > 0 && ExtentHolds(io, file, x, blocks)
    ensures Directory.ExtentListing(io, file, x) == Some(ListedBlocks(blocks))
  {
    hide StandsAt, Directory.ConcatBlocks, Directory.ExtentListing, ListedBlocks, Geometry.ByteOffset;
    var g, r := x.physicalBlockNumber / Pow2(io.relativeBlockBits), x.physicalBlockNumber % Pow2(io.relativeBlockBits);
    io.ByteOffsetOf(g, r);
    assert x.physicalBlockNumber == g * Pow2(io.relativeBlockBits) + r;
    Directory.SingleBlockDirectoryListing(io, file, x);
    BlocksAreListed(io, file, (g * io.allocationGroupSize + r) * io.blockSize, blocks);
  }

  /** A directory whose entries stand in the blocks of its first extents, below logical byte 2^35, and
      whose other extents start at or behind that byte, is listed as the entries of all those blocks, in
      order, whatever the other extents hold. */
  lemma {:induction false} WrittenDirectoryIsListed(io: IoHandle, file: File, data: seq<Extent>,
                                                    contents: seq<seq<WrittenBlock>>, others: seq<Extent>)
    requires io.directoryBlockSize == io.blockSize > 0 && |contents| == |data|
    requires forall i | 0 <= i < |data| ::
               data[i].logicalBlockNumber * io.blockSize < 0x8_0000_0000 && ExtentHolds(io, file, data[i], contents[i])
    requires forall x | x in others :: 0x8_0000_0000 <= x.logicalBlockNumber * io.blockSize < 0x8000_0000_0000_0000
    ensures Directory.Listing(io, file, Extents(data + others)) == Some(ListedExtents(contents))
    decreases |data|
  {
    hide ExtentHolds, Directory.ExtentListing, ListedBlocks;
    if data == [] {
      assert data + others == others;
    } else {
      ExtentIsListed(io, file, data[0], contents[0]);
      forall i | 0 <= i < |data[1..]|
        ensures data[1..][i].logicalBlockNumber * io.blockSize < 0x8_0000_0000
        ensures ExtentHolds(io, file, data[1..][i], contents[1..][i])
      {
        assert data[1..][i] == data[i + 1] && contents[1..][i] == contents[i + 1];
      }
      WrittenDirectoryIsListed(io, file, data[1..], contents[1..], others);
      assert (data + others)[1..] == data[1..] + others;
    }
  }
}
