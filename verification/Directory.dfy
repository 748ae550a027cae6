/** The entries of a directory inode, from its inline table or from its directory blocks. */
module Directory {
  import opened Integers
  import opened Collections
  import opened IoHandles
  import opened Extents
  import opened Inodes
  import opened BlockDirectory
  import DirectoryTable

  /** Extents from this byte offset on hold hash values, not entries. */
  const LEAF_OFFSET: int := 0x8_0000_0000

  // ---------- Directory blocks of one extent ----------

  /** The entries of the directory block at an offset. */
  function BlockListing(io: IoHandle, file: File, offset: int): Option<seq<Entry>> {
    match ReadAt(file, offset, io.blockSize)
    case None => None
    case Some(data) => if |data| < 8 then None else Parse(io, data)
  }

  /** The entries of the blocks from an offset on, until the remaining size, in 64-bit unsigned
      arithmetic, is used up. */
  function BlocksListing(io: IoHandle, file: File, offset: int, size: nat): Option<seq<Entry>>
    requires io.directoryBlockSize > 0
    decreases |file| - offset
  {
    if size == 0 then Some([])
    else if BlockListing(io, file, offset).None? then None
    else Prepend(BlockListing(io, file, offset).value,
                 BlocksListing(io, file, offset + io.directoryBlockSize, U64(size - io.directoryBlockSize)))
  }

  method ReadBlocks(io: IoHandle, file: File, start: int, size: nat, entries: CArray<Entry>) returns (ok: bool)
    requires io.directoryBlockSize > 0
    modifies entries
    ensures ok == BlocksListing(io, file, start, size).Some?
    ensures ok ==> entries.entries == old(entries.entries) + BlocksListing(io, file, start, size).value
  {
    hide Parse, Prepend, U64, BlocksListing;
    var blockDirectoryOffset: int, extentSize: nat := start, size;
    ghost var found: seq<Entry> := [];
    PrependNothing(BlocksListing(io, file, start, size));
    while extentSize > 0
      invariant entries.entries == old(entries.entries) + found
      invariant BlocksListing(io, file, start, size) ==
                Prepend(found, BlocksListing(io, file, blockDirectoryOffset, extentSize))
      decreases |file| - blockDirectoryOffset
    {
      PrependNone(found);
      BlocksListingStep(io, file, blockDirectoryOffset, extentSize);
      if io.blockSize == 0 {
        return false;
      }
      var block := new Block();
      var data := ReadAt(file, blockDirectoryOffset, io.blockSize);
      if data.None? {
        return false;
      }
      var read := block.ReadData(io, data.value, entries);
      if !read {
        return false;
      }
      ghost var listed := BlockListing(io, file, blockDirectoryOffset).value;
      blockDirectoryOffset := blockDirectoryOffset + io.directoryBlockSize;
      extentSize := U64(extentSize - io.directoryBlockSize);
      PrependTwice(found, listed, BlocksListing(io, file, blockDirectoryOffset, extentSize));
      found := found + listed;
    }
    BlocksListingDone(io, file, blockDirectoryOffset);
    PrependEnd(found);
    ok := true;
  }

  lemma BlocksListingStep(io: IoHandle, file: File, offset: int, size: nat)
    requires io.directoryBlockSize > 0 && size > 0
    ensures var listing := BlockListing(io, file, offset);
            && (listing.None? ==> BlocksListing(io, file, offset, size) == None)
            && (listing.Some? ==> BlocksListing(io, file, offset, size) ==
                                  Prepend(listing.value,
                                          BlocksListing(io, file, offset + io.directoryBlockSize,
                                                        U64(size - io.directoryBlockSize))))
  {
    hide BlockListing, Prepend, U64;
  }

  lemma BlocksListingDone(io: IoHandle, file: File, offset: int)
    requires io.directoryBlockSize > 0
    ensures BlocksListing(io, file, offset, 0) == Some([])
  {
  }

  /** The concatenation of the parses of n blocks, one every directoryBlockSize bytes. */
  function ConcatBlocks(io: IoHandle, file: File, offset: int, n: nat): Option<seq<Entry>>
    decreases n
  {
    if n == 0 then Some([])
    else if BlockListing(io, file, offset).None? then None
    else Prepend(BlockListing(io, file, offset).value, ConcatBlocks(io, file, offset + io.directoryBlockSize, n - 1))
  }

  ghost function Flatten(listings: seq<seq<Entry>>): seq<Entry> {
    if listings == [] then [] else listings[0] + Flatten(listings[1..])
  }

  /** Blocks that can all be read are listed one after the other. */
  lemma {:induction false} ReadableBlocksListing(io: IoHandle, file: File, offset: int, listings: seq<seq<Entry>>)
    requires forall i: nat | i < |listings| ::
               BlockListing(io, file, offset + i * io.directoryBlockSize) == Some(listings[i])
    ensures ConcatBlocks(io, file, offset, |listings|) == Some(Flatten(listings))
    decreases |listings|
  {
    hide BlockListing;
    if listings != [] {
      assert BlockListing(io, file, offset + 0 * io.directoryBlockSize) == Some(listings[0]);
      forall i: nat | i < |listings[1..]|
        ensures BlockListing(io, file, offset + io.directoryBlockSize + i * io.directoryBlockSize) ==
                Some(listings[1..][i])
      {
        MulDistribute(i, 1, io.directoryBlockSize);
        assert BlockListing(io, file, offset + (i + 1) * io.directoryBlockSize) == Some(listings[i + 1]);
      }
      ReadableBlocksListing(io, file, offset + io.directoryBlockSize, listings[1..]);
    }
  }

  /** When directory blocks tile the extent, its listing is the concatenation of their parses. */
  lemma {:induction false} TiledExtentListing(io: IoHandle, file: File, offset: int, n: nat)
    requires io.directoryBlockSize > 0 && n * io.directoryBlockSize < TWO_64
    ensures BlocksListing(io, file, offset, n * io.directoryBlockSize) == ConcatBlocks(io, file, offset, n)
    decreases n
  {
    hide BlockListing, Prepend;
    if n > 0 {
      MulDistribute(n - 1, 1, io.directoryBlockSize);
      MulNonNegative(n - 1, io.directoryBlockSize);
      TiledExtentListing(io, file, offset + io.directoryBlockSize, n - 1);
    }
  }

  /** More bytes than the file can still supply are never used up. */
  lemma {:induction false} TooLargeIsRefused(io: IoHandle, file: File, offset: int, size: nat)
    requires io.directoryBlockSize > 0 && size < TWO_64
    requires offset <= |file| + io.directoryBlockSize && size > |file| - offset + io.directoryBlockSize
    ensures BlocksListing(io, file, offset, size).None?
    decreases |file| - offset
  {
    hide Parse;
    if BlockListing(io, file, offset).Some? {
      TooLargeIsRefused(io, file, offset + io.directoryBlockSize, size - io.directoryBlockSize);
    }
  }

  /** An extent is listed only if directory blocks tile it: the remaining size then ends at zero, and
      it never wraps around. */
  lemma {:induction false} ListedExtentIsTiled(io: IoHandle, file: File, offset: int, size: nat) returns (n: nat)
    requires io.directoryBlockSize > 0 && size < TWO_64 && |file| < TWO_63
    requires BlocksListing(io, file, offset, size).Some?
    ensures size == n * io.directoryBlockSize
    decreases |file| - offset
  {
    hide BlockListing, BlocksListing;
    if size == 0 {
      n := 0;
    } else {
      BlocksListingStep(io, file, offset, size);
      ReadInsideFile(io, file, offset);
      if size < io.directoryBlockSize {
        TooLargeIsRefused(io, file, offset + io.directoryBlockSize, U64(size - io.directoryBlockSize));
        assert false;
      } else {
        var m := ListedExtentIsTiled(io, file, offset + io.directoryBlockSize, size - io.directoryBlockSize);
        MulDistribute(m, 1, io.directoryBlockSize);
        n := m + 1;
      }
    }
  }

  lemma ReadInsideFile(io: IoHandle, file: File, offset: int)
    ensures BlockListing(io, file, offset).Some? ==> 0 <= offset <= |file|
  {
    hide Parse;
  }

  // ---------- All extents ----------

  /** The logical byte offset of the extent does not fit a signed 64-bit offset. */
  predicate OutOfBounds(io: IoHandle, x: Extent) {
    x.logicalBlockNumber * io.blockSize >= TWO_63
  }

  predicate IsData(io: IoHandle, x: Extent) {
    x.logicalBlockNumber * io.blockSize < LEAF_OFFSET
  }

  function ExtentListing(io: IoHandle, file: File, x: Extent): Option<seq<Entry>>
    requires io.directoryBlockSize > 0
  {
    BlocksListing(io, file, io.ByteOffset(x.physicalBlockNumber), x.numberOfBlocks * io.blockSize)
  }

  /** The extents are read in order, up to the first one that is not a data extent. */
  function ExtentsListing(io: IoHandle, file: File, xs: seq<Extent>): Option<seq<Entry>>
    requires io.directoryBlockSize > 0
  {
    if xs == [] then Some([])
    else if OutOfBounds(io, xs[0]) then None
    else if !IsData(io, xs[0]) then Some([])
    else if ExtentListing(io, file, xs[0]).None? then None
    else Prepend(ExtentListing(io, file, xs[0]).value, ExtentsListing(io, file, xs[1..]))
  }

  method ReadExtentBlocks(io: IoHandle, file: File, xs: seq<Extent>, entries: CArray<Entry>) returns (ok: bool)
    requires io.directoryBlockSize > 0 && io.blockSize > 0
    modifies entries
    ensures ok == ExtentsListing(io, file, xs).Some?
    ensures ok ==> entries.entries == old(entries.entries) + ExtentsListing(io, file, xs).value
  {
    hide Prepend, Geometry.ByteOffset, BlocksListing;
    ghost var found: seq<Entry> := [];
    var extentIndex := 0;
    assert xs[0..] == xs;
    PrependNothing(ExtentsListing(io, file, xs));
    while extentIndex < |xs|
      invariant 0 <= extentIndex <= |xs|
      invariant entries.entries == old(entries.entries) + found
      invariant ExtentsListing(io, file, xs) == Prepend(found, ExtentsListing(io, file, xs[extentIndex..]))
    {
      PrependNone(found);
      PrependEnd(found);
      var extent := xs[extentIndex];
      assert xs[extentIndex..][0] == extent && xs[extentIndex..][1..] == xs[extentIndex + 1..];
      WithinQuotient(extent.logicalBlockNumber, io.blockSize, TWO_63 - 1);
      if extent.logicalBlockNumber > (TWO_63 - 1) / io.blockSize {
        return false;
      }
      var logicalOffset := extent.logicalBlockNumber * io.blockSize;
      if logicalOffset >= LEAF_OFFSET {
        return true;
      }
      var blockDirectoryOffset := io.ByteOffset(extent.physicalBlockNumber);
      var extentSize := extent.numberOfBlocks * io.blockSize;
      var read := ReadBlocks(io, file, blockDirectoryOffset, extentSize, entries);
      if !read {
        return false;
      }
      ghost var listed := ExtentListing(io, file, extent).value;
      PrependTwice(found, listed, ExtentsListing(io, file, xs[extentIndex + 1..]));
      found := found + listed;
      extentIndex := extentIndex + 1;
    }
    PrependEnd(found);
    ok := true;
  }

  function DataExtents(io: IoHandle, xs: seq<Extent>): seq<Extent> {
    if xs == [] then []
    else if IsData(io, xs[0]) then [xs[0]] + DataExtents(io, xs[1..])
    else DataExtents(io, xs[1..])
  }

  ghost predicate SortedByBlock(xs: seq<Extent>) {
    forall i, j | 0 <= i < j < |xs| :: xs[i].logicalBlockNumber <= xs[j].logicalBlockNumber
  }

  lemma {:induction false} NoDataExtents(io: IoHandle, xs: seq<Extent>)
    requires forall x | x in xs :: !IsData(io, x)
    ensures DataExtents(io, xs) == []
  {
    if xs != [] {
      NoDataExtents(io, xs[1..]);
    }
  }

  /** Stopping at the first leaf extent drops no data extent of a sorted list: the listing is that of
      all data extents, wherever they are. */
  lemma {:induction false} StoppingEarlyDropsNothing(io: IoHandle, file: File, xs: seq<Extent>)
    requires io.directoryBlockSize > 0 && SortedByBlock(xs)
    requires forall x | x in xs :: !OutOfBounds(io, x)
    ensures ExtentsListing(io, file, xs) == ExtentsListing(io, file, DataExtents(io, xs))
  {
    hide Prepend, ExtentListing, OutOfBounds;
    if xs != [] {
      if IsData(io, xs[0]) {
        StoppingEarlyDropsNothing(io, file, xs[1..]);
        assert DataExtents(io, xs)[1..] == DataExtents(io, xs[1..]);
      } else {
        forall x | x in xs
          ensures !IsData(io, x)
        {
          MulMono(xs[0].logicalBlockNumber, x.logicalBlockNumber, io.blockSize);
        }
        NoDataExtents(io, xs);
      }
    }
  }

  /** With directory blocks as large as file system blocks, an extent is listed as the concatenation
      of the parses of all its blocks. */
  lemma SingleBlockDirectoryListing(io: IoHandle, file: File, x: Extent)
    requires io.directoryBlockSize == io.blockSize > 0 && x.numberOfBlocks < TWO_32
    ensures ExtentListing(io, file, x) == ConcatBlocks(io, file, io.ByteOffset(x.physicalBlockNumber), x.numberOfBlocks)
  {
    hide BlocksListing, ConcatBlocks, Geometry.ByteOffset;
    MulMono(x.numberOfBlocks, TWO_32, io.blockSize);
    TiledExtentListing(io, file, io.ByteOffset(x.physicalBlockNumber), x.numberOfBlocks);
  }

  /** An extent behind data extents makes the whole listing fail if it starts behind what a signed 64-bit
      offset can express, or if it is a data extent, below logical byte 2^35, with a block that fails. */
  lemma {:induction false} OneExtentFailsAll(io: IoHandle, file: File, front: seq<Extent>, x: Extent, back: seq<Extent>)
    requires io.directoryBlockSize > 0
    requires forall y | y in front :: y.logicalBlockNumber * io.blockSize < 0x8_0000_0000
    requires || x.logicalBlockNumber * io.blockSize >= 0x8000_0000_0000_0000
             || (x.logicalBlockNumber * io.blockSize < 0x8_0000_0000 && ExtentListing(io, file, x).None?)
    ensures ExtentsListing(io, file, front + ([x] + back)) == None
    decreases |front|
  {
    hide ExtentListing, Prepend;
    var all := front + ([x] + back);
    if front == [] {
      assert all[0] == x;
    } else {
      assert all[0] == front[0] && all[1..] == front[1..] + ([x] + back);
      OneExtentFailsAll(io, file, front[1..], x, back);
      if ExtentListing(io, file, front[0]).Some? {
        PrependNone(ExtentListing(io, file, front[0]).value);
      }
    }
  }

  // ---------- All blocks of a directory ----------

  /** The concatenation of the parses of the blocks at the given offsets. */
  function ListBlocks(io: IoHandle, file: File, offsets: seq<int>): Option<seq<Entry>> {
    if offsets == [] then Some([])
    else if BlockListing(io, file, offsets[0]).None? then None
    else Prepend(BlockListing(io, file, offsets[0]).value, ListBlocks(io, file, offsets[1..]))
  }

  /** The offsets of n file system blocks in a row. */
  function Offsets(io: IoHandle, offset: int, n: nat): (offsets: seq<int>)
    ensures |offsets| == n
    decreases n
  {
    if n == 0 then [] else [offset] + Offsets(io, offset + io.blockSize, n - 1)
  }

  /** The offsets of all blocks of all extents, in order. */
  function AllOffsets(io: IoHandle, xs: seq<Extent>): seq<int> {
    if xs == [] then []
    else Offsets(io, io.ByteOffset(xs[0].physicalBlockNumber), xs[0].numberOfBlocks) + AllOffsets(io, xs[1..])
  }

  lemma {:induction false} ConcatIsList(io: IoHandle, file: File, offset: int, n: nat)
    requires io.directoryBlockSize == io.blockSize
    ensures ConcatBlocks(io, file, offset, n) == ListBlocks(io, file, Offsets(io, offset, n))
    decreases n
  {
    hide BlockListing;
    if n > 0 {
      ConcatIsList(io, file, offset + io.blockSize, n - 1);
      assert Offsets(io, offset, n)[1..] == Offsets(io, offset + io.blockSize, n - 1);
    }
  }

  lemma {:induction false} ListAppend(io: IoHandle, file: File, a: seq<int>, b: seq<int>)
    ensures ListBlocks(io, file, a + b) ==
            if ListBlocks(io, file, a).None? then None
              else Prepend(ListBlocks(io, file, a).value, ListBlocks(io, file, b))
    decreases |a|
  {
    hide BlockListing;
    if a == [] {
      assert a + b == b;
      PrependNothing(ListBlocks(io, file, b));
    } else {
      assert (a + b)[1..] == a[1..] + b;
      ListAppend(io, file, a[1..], b);
      if BlockListing(io, file, a[0]).Some? && ListBlocks(io, file, a[1..]).Some? {
        PrependTwice(BlockListing(io, file, a[0]).value, ListBlocks(io, file, a[1..]).value, ListBlocks(io, file, b));
      }
    }
  }

  lemma {:induction false} DataExtentsAreData(io: IoHandle, xs: seq<Extent>)
    ensures forall x | x in DataExtents(io, xs) :: x in xs && IsData(io, x)
  {
    if xs != [] {
      DataExtentsAreData(io, xs[1..]);
    }
  }

  lemma {:induction false} DataExtentsListing(io: IoHandle, file: File, xs: seq<Extent>)
    requires io.directoryBlockSize == io.blockSize > 0
    requires forall x | x in xs :: IsData(io, x) && !OutOfBounds(io, x) && x.numberOfBlocks < TWO_32
    ensures ExtentsListing(io, file, xs) == ListBlocks(io, file, AllOffsets(io, xs))
    decreases |xs|
  {
    hide ListBlocks, IsData, OutOfBounds, ExtentListing, Offsets, ConcatBlocks, Prepend;
    if xs == [] {
      assert ListBlocks(io, file, []) == Some([]) by {
        NoBlocks(io, file);
      }
    } else {
      var x := xs[0];
      var offset := io.ByteOffset(x.physicalBlockNumber);
      SingleBlockDirectoryListing(io, file, x);
      ConcatIsList(io, file, offset, x.numberOfBlocks);
      ListAppend(io, file, Offsets(io, offset, x.numberOfBlocks), AllOffsets(io, xs[1..]));
      DataExtentsListing(io, file, xs[1..]);
    }
  }

  lemma NoBlocks(io: IoHandle, file: File)
    ensures ListBlocks(io, file, []) == Some([])
  {
  }

  /** With directory blocks as large as file system blocks and extents in logical order, a directory is
      listed as the concatenation of the parses of all blocks of all data extents. */
  lemma DirectoryListsAllDataBlocks(io: IoHandle, file: File, xs: seq<Extent>)
    requires io.directoryBlockSize == io.blockSize > 0 && SortedByBlock(xs)
    requires forall x | x in xs :: !OutOfBounds(io, x) && x.numberOfBlocks < TWO_32
    ensures ExtentsListing(io, file, xs) == ListBlocks(io, file, AllOffsets(io, DataExtents(io, xs)))
  {
    hide ExtentsListing, ListBlocks, AllOffsets, DataExtents, IsData, OutOfBounds;
    StoppingEarlyDropsNothing(io, file, xs);
    DataExtentsAreData(io, xs);
    DataExtentsListing(io, file, DataExtents(io, xs));
  }

  // ---------- The directory ----------

  /** The entries of a directory inode. */
  function Listing(io: IoHandle, file: File, fork: Fork): Option<seq<Entry>>
    requires io.directoryBlockSize > 0
  {
    match fork
    case Unsupported => None
    case InlineData(data) => DirectoryTable.ParseTable(io, data)
    case Extents(xs) => ExtentsListing(io, file, xs)
  }

  /** Reads the entries of an inode; a failure after the first checks leaves no entries. */
  method ReadFile(io: IoHandle, file: File, isDirectory: bool, fork: Fork, entries: CArray<Entry>) returns (ok: bool)
    requires io.directoryBlockSize > 0
    modifies entries
    ensures var usable := io.allocationGroupSize != 0 && io.blockSize != 0;
            && (!usable ==> !ok && entries.entries == old(entries.entries))
            && (usable && !isDirectory ==> ok && entries.entries == old(entries.entries))
            && (usable && isDirectory ==>
                  var listing := Listing(io, file, fork);
                  && ok == listing.Some?
                  && entries.entries == if ok then old(entries.entries) + listing.value else [])
  {
    hide ExtentsListing, DirectoryTable.ParseTable;
    if io.allocationGroupSize == 0 || io.blockSize == 0 {
      return false;
    }
    if isDirectory {
      var read := false;
      if fork.InlineData? {
        var table := new DirectoryTable.Table();
        TooShortTable(io, fork.data);
        read := table.ReadData(io, fork.data, entries);
      } else if fork.Extents? {
        read := ReadExtentBlocks(io, file, fork.extents, entries);
      }
      if !read {
        entries.Empty();
        return false;
      }
    }
    ok := true;
  }

  lemma TooShortTable(io: IoHandle, data: seq<byte>)
    ensures |data| < 2 ==> DirectoryTable.ParseTable(io, data).None?
  {
  }
}
