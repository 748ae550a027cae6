/** Directory blocks that are larger than file system blocks: the reader takes the first file system block
    of each for the whole. */
module LargeDirectoryBlocks {
  import opened Integers
  import opened Bytes
  import opened Collections
  import opened IoHandles
  import opened BlockDirectory
  import opened DirectoryLayout
  import opened BlockDirectoryFormat
  import opened BlockDirectoryTiling
  import Directory

  /** Where the entries end in the first bytes of a block: at the cut, or, for a block with a footer, in
      front of as many hash values as the number claims that stands eight bytes before the cut. */
  function CutEnd(block: seq<byte>, hasFooter: bool, size: nat): (end: Option<nat>)
    requires 8 <= size <= |block|
    ensures end.Some? ==> end.value <= size
  {
    if !hasFooter then Some(size)
    else
      var n := U32At(block, size - 8);
      if 8 * n > size - 8 then None else Some(size - 8 - 8 * n)
  }

  lemma EndOfTheCut(block: seq<byte>, hasFooter: bool, size: nat)
    requires 8 <= size <= |block|
    ensures EntriesEnd(block[..size], hasFooter) == CutEnd(block, hasFooter, size)
  {
    hide U32At;
    SameFields(block, size, size - 8);
  }

  lemma BlockStarts(io: IoHandle, header: Header, headerRest: seq<byte>, slots: seq<Slot>, trailer: seq<byte>,
                    size: nat)
    requires header.formatVersion in {2, 3} && |headerRest| == HeaderBytes(header.formatVersion) - 4
    requires AllValid(io, slots)
    ensures var block := FormatBlock(io, header, headerRest, slots, trailer);
            var start := HeaderBytes(header.formatVersion);
            && (start <= size <= |block| ==> ParseHeader(block[..size]) == Some(header))
            && start + |FormatSlots(io, slots)| <= |block|
            && block[start..start + |FormatSlots(io, slots)|] == FormatSlots(io, slots)
  {
    hide Magic, Signature, FormatSlots, ParseHeader, HeaderBytes, HeaderSize;
    HeadersAgree(header);
    var pre, body := Magic(header) + headerRest, FormatSlots(io, slots);
    var block := pre + body + trailer;
    assert block == FormatBlock(io, header, headerRest, slots, trailer);
    SliceMiddle(pre, body, trailer, 0, |body|);
    if HeaderBytes(header.formatVersion) <= size <= |block| {
      assert block[..size][..4] == Signature(header);
      HeaderIsUnique(block[..size], header);
    }
  }

  /** The first bytes of a written block are read as its slots up to the end that the cut gives. */
  lemma CutBlockIsItsSlots(io: IoHandle, header: Header, headerRest: seq<byte>, slots: seq<Slot>, trailer: seq<byte>,
                           size: nat)
    requires header.formatVersion in {2, 3} && |headerRest| == HeaderBytes(header.formatVersion) - 4
    requires AllValid(io, slots)
    requires HeaderBytes(header.formatVersion) <= size <= |FormatBlock(io, header, headerRest, slots, trailer)|
    ensures var block := FormatBlock(io, header, headerRest, slots, trailer);
            Parse(io, block[..size]) ==
            match CutEnd(block, header.hasFooter, size)
            case None => None
            case Some(end) => ParseSlots(io, block, HeaderBytes(header.formatVersion), end)
  {
    hide FormatBlock, ParseHeader, EntriesEnd, CutEnd, ParseSlots, HeaderBytes, HeaderSize;
    HeadersAgree(header);
    var block := FormatBlock(io, header, headerRest, slots, trailer);
    BlockStarts(io, header, headerRest, slots, trailer, size);
    EndOfTheCut(block, header.hasFooter, size);
    if CutEnd(block, header.hasFooter, size).Some? {
      ReadsBelowTheEnd(io, block, size, HeaderBytes(header.formatVersion), CutEnd(block, header.hasFooter, size).value);
    }
  }

  /** What a cut block is read as, when its entries end at the front slots or in the first slot of the back:
      the entries of the front if the cut is clean, and a failure otherwise. */
  lemma CutBlockExactly(io: IoHandle, header: Header, headerRest: seq<byte>, front: seq<Slot>, back: seq<Slot>,
                        trailer: seq<byte>, size: nat)
    requires header.formatVersion in {2, 3} && |headerRest| == HeaderBytes(header.formatVersion) - 4
    requires AllValid(io, front) && AllValid(io, back) && AllValid(io, front + back) && AllRecognizable(front + back)
    requires var block := FormatBlock(io, header, headerRest, front + back, trailer);
             && HeaderBytes(header.formatVersion) <= size <= |block|
             && CutEnd(block, header.hasFooter, size).Some?
             && CutsAt(io, HeaderBytes(header.formatVersion), CutEnd(block, header.hasFooter, size).value, front, back)
    ensures var block := FormatBlock(io, header, headerRest, front + back, trailer);
            var start, end := HeaderBytes(header.formatVersion), CutEnd(block, header.hasFooter, size).value;
            && Parse(io, block[..size]) ==
               (if CleanCut(io, start, end, front, back) then Some(Listing(front)) else None)
            && (Parse(io, block[..size]) == Some(Listing(front + back)) <==>
                  CleanCut(io, start, end, front, back) && Listing(back) == [])
  {
    hide FormatBlock, CutEnd, Parse, ParseSlots, Listing, CleanCut, CutsAt, AllValid, AllRecognizable, FormatSlots;
    var block := FormatBlock(io, header, headerRest, front + back, trailer);
    var start, end := HeaderBytes(header.formatVersion), CutEnd(block, header.hasFooter, size).value;
    BlockStarts(io, header, headerRest, front + back, trailer, size);
    CutBlockIsItsSlots(io, header, headerRest, front + back, trailer, size);
    CutRegionExactly(io, front, back, block, start, end);
  }

  /** A large directory block without a footer on a volume is listed as its entries exactly when the first
      file system block ends between two slots, or behind the size of an unused one, and no entry is
      listed behind that. Otherwise it is listed without those entries, or refused. */
  lemma LargeBlockIsListedExactly(io: IoHandle, file: File, offset: int, header: Header, headerRest: seq<byte>,
                                  front: seq<Slot>, back: seq<Slot>)
    requires header.formatVersion in {2, 3} && !header.hasFooter
    requires |headerRest| == HeaderBytes(header.formatVersion) - 4
    requires AllValid(io, front) && AllValid(io, back) && AllValid(io, front + back) && AllRecognizable(front + back)
    requires HeaderBytes(header.formatVersion) <= io.blockSize <= io.directoryBlockSize
    requires ReadAt(file, offset, io.directoryBlockSize) == Some(FormatBlock(io, header, headerRest, front + back, []))
    requires CutsAt(io, HeaderBytes(header.formatVersion), io.blockSize, front, back)
    ensures var clean := CleanCut(io, HeaderBytes(header.formatVersion), io.blockSize, front, back);
            && Directory.BlockListing(io, file, offset) == (if clean then Some(Listing(front)) else None)
            && (Directory.BlockListing(io, file, offset) == Some(Listing(front + back)) <==>
              clean && Listing(back) == [])
  {
    hide FormatBlock, Parse, Listing, CleanCut, CutsAt, AllValid, AllRecognizable;
    var block := FormatBlock(io, header, headerRest, front + back, []);
    FirstBlockIsRead(io, file, offset, block);
    CutBlockExactly(io, header, headerRest, front, back, [], io.blockSize);
  }

  lemma FirstBlockIsRead(io: IoHandle, file: File, offset: int, block: seq<byte>)
    requires 8 <= io.blockSize <= io.directoryBlockSize && ReadAt(file, offset, io.directoryBlockSize) == Some(block)
    ensures Directory.BlockListing(io, file, offset) == Parse(io, block[..io.blockSize])
  {
    hide Parse;
    SliceOfSlice(file, offset, offset + io.directoryBlockSize, 0, io.blockSize);
    assert block[0..io.blockSize] == block[..io.blockSize];
    assert ReadAt(file, offset, io.blockSize) == Some(block[..io.blockSize]);
  }

  // ---------- A directory that is listed as empty ----------

  const EXAMPLE_IO: IoHandle := Geometry(4, 0, 512, 16, 1024, 4)

  const EXAMPLE_ENTRY: Entry := Entry(7, [0x61])

  /** The slots of a directory block of two file system blocks, with its only entry in the second. */
  function ExampleFront(): seq<Slot> {
    [Unused(Zeros(492))]
  }

  function ExampleBack(): seq<Slot> {
    [Used(EXAMPLE_ENTRY, 0, Zeros(4), 0), Unused(Zeros(492))]
  }

  function ExampleBlock(): seq<byte>
    requires AllValid(EXAMPLE_IO, ExampleFront() + ExampleBack())
  {
    FormatBlock(EXAMPLE_IO, BlockDirectory.Header(2, false), Zeros(12), ExampleFront() + ExampleBack(), [])
  }

  lemma ExampleSlots()
    ensures AllValid(EXAMPLE_IO, ExampleFront()) && AllValid(EXAMPLE_IO, ExampleBack())
    ensures AllValid(EXAMPLE_IO, ExampleFront() + ExampleBack()) && AllRecognizable(ExampleFront() + ExampleBack())
    ensures Listing(ExampleFront()) == [] && Listing(ExampleFront() + ExampleBack()) == [EXAMPLE_ENTRY]
  {
    var front, back := ExampleFront(), ExampleBack();
    assert TypeBytes(EXAMPLE_IO, 0) == [];
    assert back == [back[0]] + [back[1]] && back[1..] == [back[1]] + [] && front == [front[0]] + [];
    ListingOfFirst(front[0], []);
    ListingOfFirst(back[1], []);
    ListingOfFirst(back[0], [back[1]]);
    ListingAppend(front, back);
  }

  lemma ExampleSizes()
    requires AllValid(EXAMPLE_IO, ExampleFront()) && AllValid(EXAMPLE_IO, ExampleBack())
    requires AllValid(EXAMPLE_IO, ExampleFront() + ExampleBack())
    ensures |FormatSlots(EXAMPLE_IO, ExampleFront())| == 496 && |ExampleBlock()| == 1024
  {
    var front, back := ExampleFront(), ExampleBack();
    assert EntrySize(EXAMPLE_IO, 1) == 16;
    assert front[0] in front && back[0] in back && back[1] in back;
    hide Slot.Format;
    SlotSize(EXAMPLE_IO, front[0]);
    SlotSize(EXAMPLE_IO, back[0]);
    SlotSize(EXAMPLE_IO, back[1]);
    FormatAppend(EXAMPLE_IO, front, back);
    FirstSlot(EXAMPLE_IO, front);
    FirstSlot(EXAMPLE_IO, back);
    FirstSlot(EXAMPLE_IO, back[1..]);
    assert front[1..] == [] && back[1..][1..] == [];
  }

  /** The entry is in the block, and the listing of the volume does not show it. */
  lemma EntryBehindTheFirstBlockIsLost()
    ensures AllValid(EXAMPLE_IO, ExampleFront() + ExampleBack())
    ensures Listing(ExampleFront() + ExampleBack()) == [EXAMPLE_ENTRY]
    ensures Directory.BlockListing(EXAMPLE_IO, ExampleBlock(), 0) == Some([])
    ensures Directory.BlocksListing(EXAMPLE_IO, ExampleBlock(), 0, 1024) == Some([])
  {
    hide ExampleFront, ExampleBack, FormatBlock, FormatSlots, AllValid, AllRecognizable, Listing,
         Directory.BlockListing, Parse;
    ExampleSlots();
    ExampleSizes();
    var file := ExampleBlock();
    assert file[0..1024] == file;
    LargeBlockIsListedExactly(EXAMPLE_IO, file, 0, BlockDirectory.Header(2, false), Zeros(12), ExampleFront(),
      ExampleBack());
    Directory.TiledExtentListing(EXAMPLE_IO, file, 0, 1);
    PrependNothing<Entry>(Some([]));
    assert Directory.ConcatBlocks(EXAMPLE_IO, file, 1024, 0) == Some([]);
    assert Directory.ConcatBlocks(EXAMPLE_IO, file, 0, 1) == Prepend([], Some([]));
  }
}
