# Verification of the XFS read path and of mount point names

The library reads an XFS volume: it turns packed big-endian bytes into extents, directory entries,
extended attributes and data streams. The mount tool shows the names it finds as path components.
This project models that code in Dafny, step by step where the code works step by step, and proves
what it guarantees on every input: arbitrary bytes, block stores that nobody vouches for, and every
Unicode name.

`dafny verify dfyconfig.toml` checks all of it.

## The system in the model

- `Integers`, `Bytes`, `Collections`: fixed-width arithmetic, big-endian fields, the growable array.
- `BoundedTree`: a traversal that only a depth budget keeps finite, over any store of blocks. It is
  the common core of the extents tree and of the attributes tree.
- `IoHandles`: the geometry of a volume, reading at an offset, and the translation of a block number
  through its allocation group to a byte offset.
- `Extents`, `BtreeBlock`, `ExtentBtree`, `DataStreams`, `FileData`: from the bytes of a packed
  extent record to the bytes of a file; `ExtentBtreeFormat` writes whole trees on a volume.
- `BlockDirectory`, `DirectoryTable`, `Directory` read the two encodings of a directory;
  `DirectoryLayout` writes them in the on-disk format, and `BlockDirectoryFormat` and
  `DirectoryTableFormat` compare reading with writing. `BlockDirectoryTiling` says what acceptance means on arbitrary bytes and
  what is left of a region that is cut off, `LargeDirectoryBlocks` what that does to directory blocks of
  more than one file system block.
- `AttributeValues`, `AttributesLeaf`, `Attributes`, `AttributesTable`, `AttributeStreams` read
  extended attributes and the data streams of their values; `AttributesFormat` writes whole trees of
  their blocks, `AttributesTableFormat` tables inside the inode.
- `MountPath`, `MountPathRoundTrip`, `UnicodeCodecs`: the escaping printer, the unescaping parser,
  and the conversions between code points and code units. UTF-8 (section 3 of RFC 3629) and UTF-16
  (section 2 of RFC 2781) are proved lawful. The platform, POSIX or Windows, is a parameter.
- `Getopt`: the fallback option scanner (section 12.2 of the Base Definitions of POSIX.1-2017).

A method that changes state is proved equal to a function of its inputs and of the old state, on
success and on failure. Lemmas about that function then say what it means, without naming its body:
it inverts writing, it equals an independent definition, or it does so exactly under a condition. What
is written is spelled out on its own, in bytes and plain numbers, and names no function of a reader:
`DirectoryLayout`, `AttributeLayout`, `MountPathTable`, and the layouts in the modules whose names end
in `Format`. `DirectoryOnVolume` and `FileData` put the parts together, from the bytes of a volume to
what a caller gets.

## Where the code falls short, exactly

- An extent record comes back unchanged if and only if its physical block number is below 2^43; the
  documentation of the format gives that number 52 bits (`documentation/X File System (XFS).asciidoc`
  line 893), the code does not shift the upper nine of them (`Extents.DecodeEncodeExactly`, example
  `Extents.DecodeLosesHighBits`).
- Filling a gap of an extent list, or the tail of a file, ends where it should if and only if the
  length fits the 32-bit field (`Extents.FilledIsGapFree`, `Extents.FilledTailEnds`; examples
  `Extents.WidestGapIsNotFilled`, `Extents.LongestTailIsNotFilled`).
- The offset that an extent reports is the stored one if and only if its allocation group is 0 or
  groups are as large as block numbers can express (`Extents.UntranslatedOffsetExactly`, example
  `Extents.UntranslatedOffsetIsWrong`).
- A tree that a higher maximum depth accepts is read the same with a lower one if and only if no block
  of it claims a level above that; otherwise it is refused. With the maximum depth of zero that
  initialisation leaves, this means that all blocks below the root are leaves
  (`ExtentBtree.LevelLimitExactly`, `ExtentBtree.InitialDepthExactly`,
  `ExtentBtreeFormat.WrittenTreeIsReadExactly`, example `ExtentBtreeFormat.ThreeLevelsAreRefused`).
- A directory block is listed as its entries if and only if no inode number has upper 16 bits that are
  all ones (`BlockDirectoryFormat.SlotsAreListedExactly`, `BlockDirectoryFormat.BlockIsListedExactly`,
  example `BlockDirectoryFormat.FreeTaggedEntryIsLost`).
- When directory blocks are larger than file system blocks, the reader takes the first file system
  block of each for the whole. A directory block without a footer is then listed as its entries if and
  only if the cut falls between two slots, or behind the first four bytes of an unused one, and no entry
  is listed behind it; it is refused if the cut falls anywhere else, and otherwise listed without the
  entries behind it (`LargeDirectoryBlocks.LargeBlockIsListedExactly`, example
  `LargeDirectoryBlocks.EntryBehindTheFirstBlockIsLost`). In a block with a footer, what stands eight
  bytes in front of the cut is taken for the number of hash values, and moves the end of the entries to
  where the same is then true (`LargeDirectoryBlocks.CutBlockExactly`).
- An empty short-form directory with 8-byte inode numbers loses its parent, since both of its counts
  are zero (`DirectoryTableFormat.ParseFormattedTable`).
- In a block of 64 KiB a local attribute value is misread if and only if it is not empty and its name
  ends at the end of the block; in smaller blocks never (`AttributesLeaf.WrapExactly`,
  `AttributesLeaf.NoWrapBelow64K`, example `AttributesLeaf.WrappedValueIsRead`).
- The reader of short-form attributes compares a name size with the size of the whole table only
  (`libfsxfs/libfsxfs_attributes_table.c:293`). It goes on behind the data if and only if, behind some
  valid entries and in place of a further one, there stands a name that is no larger than the table
  without three bytes, ends behind it, and has flags that select a prefix; the model reports this as an
  outcome of its own (`AttributesTableFormat.OutcomeExactly`, examples
  `AttributesTableFormat.NameBehindTheTable` and, for flags without a prefix,
  `AttributesTableFormat.UnknownPrefixBehindTheTable`).
- In a sound fork, a remote value is read from the right places if and only if it starts at the first
  block of an extent and fits in the extent (`AttributeStreams.ValueIsRightInSoundFork`, example
  `AttributeStreams.ValueInsideExtentIsWrong`).
- A remote value that claims to stand in block 0 is taken for a local one without data: it has a stream
  if and only if it is empty (`AttributeStreams.DecodedValueHasStreamExactly`, example
  `AttributeStreams.RemoteValueInBlockZeroIsRefused`).
- A bare marker, which stands for an operand, ends the options with the mark for an unknown one; it is
  the only first operand that is not recognized (`Getopt.WrittenCommandLineIsRead`, example
  `Getopt.BareMarkerIsUnknown`).
- The header of a 64-bit B+ tree block of version 5 has 68 bytes in the documentation (line 478) and
  72 in the code; the model follows the code.

## Model

| member | source | states |
|---|---|---|
| BoundedTree.VisitExactly | libfsxfs/libfsxfs_attributes.c:665-920 | A depth-bounded traversal of an arbitrary block store accepts a block if and only if a finite tree that fits the depth stands there; the result is the concatenation of its leaves from left to right |
| BoundedTree.VisitAllExactly | libfsxfs/libfsxfs_extent_btree.c:369-539 | The same for the list of sub blocks of a branch |
| BoundedTree.CycleIsRefused | libfsxfs/libfsxfs_extent_btree.c:425-436 | Whatever the depth budget, a block from which a path leads into a cycle is refused |
| BoundedTree.RepresentsUnique | libfsxfs/libfsxfs_extent_btree.c:605-741 | A block store holds at most one tree at a block |
| BoundedTree.RefusedMember | libfsxfs/libfsxfs_extent_btree.c:477-522 | One refused sub block makes the whole branch fail |
| BoundedTree.RestrictedVisit | libfsxfs/libfsxfs_extent_btree.c:687-699 | In a store that hides some blocks, a block accepted before is accepted with the same items if and only if no block that a path leads to is hidden; otherwise it is refused |
| BoundedTree.FitsExactly | libfsxfs/libfsxfs_attributes.c:694-705 | A tree of attributes fits a depth budget if and only if it is no deeper |
| Bytes.FromToBE | common/byte_stream.h:122-137 | Reading a big-endian field of any width inverts writing it |
| Bytes.ToFromBE | common/byte_stream.h:202-210 | Writing inverts reading, and a field of n bytes is below 256^n |
| Bytes.TopOfU64 | libfsxfs/libfsxfs_block_directory.c:407-500 | The first two bytes of a 64-bit field are its upper 16 bits, where the free tag is looked for |
| Bytes.FieldValues | common/byte_stream.h:122-137 | Fields of two, four and eight bytes in plain numbers, most significant byte first |
| IoHandles.Geometry.ByteOffsetExact | libfsxfs/libfsxfs_extent_btree.c:605-626 | Within the stated widths the wrapped arithmetic gives group times group size plus relative block, times block size |
| IoHandles.Geometry.ByteOffsetOf | libfsxfs/libfsxfs_data_stream.c:270-293 | Block r of group g, for all groups and blocks whose numbers fit, is stored at g times the group size plus r, times the block size |
| IoHandles.Geometry.FileBlockMonotone | libfsxfs/libfsxfs_data_stream.c:270-294 | The allocation-group translation is strictly monotone on the blocks that groups have |
| IoHandles.Geometry.ByteOffsetInjective | libfsxfs/libfsxfs_data_stream.c:270-294 | Distinct blocks of allocation groups have distinct byte offsets |
| IoHandles.Geometry.ByteOffsetContiguous | libfsxfs/libfsxfs_data_stream.c:270-294 | A run of blocks inside one group is one run of bytes |
| Extents.ExtentRecord.ReadData | libfsxfs/libfsxfs_extent.c:139-252 | The fields that the 16 bytes give, all of them and no others, or an unchanged record when the data is too short |
| Extents.DecodeEncode | libfsxfs/libfsxfs_extent.c:195-222 | Decoding a packed record gives back every field, except that the upper nine physical bits are or-ed into the low end |
| Extents.DecodeEncodeExactly | libfsxfs/libfsxfs_extent.c:195-222 | Decoding inverts packing if and only if the physical block number is below 2^43 |
| Extents.DecodeLosesHighBits | libfsxfs/libfsxfs_extent.c:207 | The smallest number that is lost: block 2^43 is read as block 1 |
| Extents.DecodeEncodeList | libfsxfs/libfsxfs_extents.c:200-292 | The records of a leaf decode to the list of extents they were encoded from, whatever follows |
| Extents.GetValues | libfsxfs/libfsxfs_extent.c:257-360 | Succeeds exactly when neither product overflows, with offset, size and flags of the extent |
| Extents.UntranslatedOffsetExactly | libfsxfs/libfsxfs_extent.c:333-357 | That offset is the translated one if and only if the group is 0 or groups span all relative numbers |
| Extents.UntranslatedOffsetIsWrong | libfsxfs/libfsxfs_extent.c:333-357 | A block of the second group for which the two differ |
| Extents.ReadExtents | libfsxfs/libfsxfs_extents.c:95-314 | Appends the decoded records, with a sparse extent in front of each gap; a refused list changes nothing |
| Extents.AddExtentsAppend | libfsxfs/libfsxfs_extents.c:138-292 | Gap filling over two leaves in a row is gap filling over their concatenation |
| Extents.FilledIsGapFree | libfsxfs/libfsxfs_extents.c:241-272 | Filling an ordered list leaves no gap if and only if every gap fits 32 bits |
| Extents.WidestGapIsNotFilled | libfsxfs/libfsxfs_extents.c:241-272 | A gap of 2^32 blocks is filled with an extent of no blocks |
| Extents.FilledMeansTheSame | libfsxfs/libfsxfs_extents.c:241-272 | Filling gaps of any width moves no block: the block map is unchanged at every block |
| Extents.FilledTailEnds | libfsxfs/libfsxfs_extent_btree.c:266-324 | The tail fill keeps the list gap-free, and ends at the size of the file if and only if the new length fits 32 bits |
| Extents.LongestTailIsNotFilled | libfsxfs/libfsxfs_extent_btree.c:266-324 | A tail of 2^32 blocks is filled with an extent of no blocks |
| Extents.FilledTailMeansTheSame | libfsxfs/libfsxfs_extent_btree.c:266-324 | The tail fill of any length moves no block and adds holes only, whether the last extent grows or a new one is added; if the length fits 32 bits every block it adds is covered |
| BtreeBlock.Block.ReadData | libfsxfs/libfsxfs_btree_block.c:196-340 | Header and records of a block of the given version and width; refused blocks leave the object unchanged |
| BtreeBlock.Block.ReadFile | libfsxfs/libfsxfs_btree_block.c:345-426 | The same for the block at a file offset; a short read is refused and leaves the object unchanged |
| BtreeBlock.ParseFormat | libfsxfs/libfsxfs_btree_block.c:196-340 | Splitting a block inverts laying it out, for both versions and both widths |
| BtreeBlock.ParseExactly | libfsxfs/libfsxfs_btree_block.c:196-340 | On arbitrary bytes, a block is split into a header and records if and only if it is laid out of them, with a header of 72, 56, 24 or 16 bytes by version and width |
| ExtentBtree.GetExtentsFromBranchNode | libfsxfs/libfsxfs_extent_btree.c:369-539 | Appends the extents of all sub trees in order; a failure behind the checks empties the array; the depth budget decreases |
| ExtentBtree.GetExtentsFromNode | libfsxfs/libfsxfs_extent_btree.c:544-770 | Appends the extents below one block of an arbitrary store; a failure behind the checks empties the array |
| ExtentBtree.GetExtentsFromRootNode | libfsxfs/libfsxfs_extent_btree.c:142-364 | Appends the extents of the tree, completed to the size of the file; when it fails on data of at least four bytes the array is empty |
| ExtentBtree.RootExactly | libfsxfs/libfsxfs_extent_btree.c:425-522 | A root is accepted if and only if its sub blocks hold finite trees of at most 257 levels; the extents are their leaves from left to right |
| ExtentBtree.CyclicTreeIsRefused | libfsxfs/libfsxfs_extent_btree.c:425-741 | Every volume on which the root reaches a cycle of blocks is refused |
| ExtentBtree.LevelLimitExactly | libfsxfs/libfsxfs_extent_btree.c:687-699 | An accepted tree is read the same with a lower maximum depth if and only if no block of it claims a level above that; otherwise the root is refused |
| ExtentBtree.InitialDepthExactly | libfsxfs/libfsxfs_extent_btree.c:687-699 | With a maximum depth of zero that is so if and only if all blocks below the root are leaves |
| ExtentBtreeFormat.WrittenLeafIsRead | libfsxfs/libfsxfs_extent_btree.c:605-741 | A leaf block laid out in the format is read as its extents |
| ExtentBtreeFormat.WrittenBranchIsRead | libfsxfs/libfsxfs_extent_btree.c:437-480 | A branch block laid out in the format, keys first, is read as its sub block numbers |
| ExtentBtreeFormat.NodeExactly | libfsxfs/libfsxfs_extent_btree.c:605-741 | A block is accepted if and only if it starts with BMA3 and has a header of 72 bytes in version 5, or starts with BMAP and has one of 24 in any other, and holds a node no higher than the maximum depth; level 0 is a leaf with the decoded extents, any other a branch |
| ExtentBtreeFormat.ReadableBlockStarts | libfsxfs/libfsxfs_extent_btree.c:661-686 | Any block that is read at all starts with exactly these bytes |
| ExtentBtreeFormat.WrittenTreeIsReadExactly | libfsxfs/libfsxfs_extent_btree.c:142-770 | A whole B+ tree written on a volume is read as the extents of its leaves from left to right if and only if its second level is no higher than the maximum depth and its root no higher than 257; otherwise it is refused |
| ExtentBtreeFormat.ThreeLevelsAreRefused | libfsxfs/libfsxfs_extent_btree.c:687-699 | A volume of two blocks with a tree that the initial maximum depth refuses and the next one reads |
| ExtentBtree.LeavesInRange | libfsxfs/libfsxfs_extent.c:195-222 | No extent of an accepted tree overflows a 64-bit block number |
| ExtentBtree.CompletedTreeMeansItsLeaves | libfsxfs/libfsxfs_extent_btree.c:142-364 | For ordered leaves the completed list puts each block where the leaves put it; if the holes fit 32 bits it has no gap and covers the file |
| DataStreams.InitializeFromExtents | libfsxfs/libfsxfs_data_stream.c:141-342 | One segment for each extent, in order, translated; refused only without group size or block size |
| DataStreams.Initialize | libfsxfs/libfsxfs_data_stream.c:348-435 | Inline data becomes one segment of a buffer, extents become a stream of the volume |
| DataStreams.InitializeFromData | libfsxfs/libfsxfs_data_stream.c:39-135 | One segment over the buffer; a size above zero without a buffer is refused |
| DataStreams.SegmentsCoverBlocks | libfsxfs/libfsxfs_data_stream.c:238-315 | The segment sizes of a gap-free list add up to its blocks times the block size |
| DataStreams.CellAtSnoc | libfsxfs/libfsxfs_data_stream.c:296-315 | A segment that is appended is reached by the cumulative offsets behind the sizes of all others, and moves none of them |
| DataStreams.ExtentCell | libfsxfs/libfsxfs_data_stream.c:270-294 | Inside one extent, a byte of its segment is the byte of the block that the extent maps |
| DataStreams.StreamReadsTheBlockMap | libfsxfs/libfsxfs_data_stream.c:238-315 | Reading the segments of a gap-free list at any position gives the byte that the block map gives, or zero for a hole |
| DataStreams.StreamReadsTheExtent | libfsxfs/libfsxfs_data_stream.c:238-315 | In plain numbers: a position inside an extent that starts at block r of group g reads the byte so far behind g groups and r blocks, or zero for odd flags |
| FileData.StreamReadsTheLeaves | libfsxfs/libfsxfs_block_data_handle.c:77-94 | From the tree to the bytes: the stream of the completed list covers the blocks of the file and yields at each position what the leaves map there |
| FileData.FileIsReadToItsSize | libfsxfs/libfsxfs_inode.c:949-954 | For a file of any size in bytes, with its blocks rounded up, the stream covers the size, and reading up to the mapped size yields every byte as the leaves map it and nothing behind |
| FileData.FileReadsTheLeafBlock | libfsxfs/libfsxfs_data_stream.c:270-293 | In plain numbers: block k of a leaf extent, at block r of group g, is read from g groups and r blocks, in bytes, at every position of the file below its size |
| BlockDirectory.ReadHeader | libfsxfs/libfsxfs_block_directory_header.c:141-312 | Finds the one header, of four, that the block starts with and is large enough for; fails exactly when there is none |
| BlockDirectory.HeaderIsUnique | libfsxfs/libfsxfs_block_directory_header.c:186-245 | The four signatures exclude each other |
| BlockDirectoryFormat.HeadersAgree | libfsxfs/libfsxfs_block_directory_header.c:193-232 | The headers are XDB3 and XDD3 with 64 bytes, XD2B and XD2D with 16, the first of each with a footer |
| BlockDirectory.Block.ReadData | libfsxfs/libfsxfs_block_directory.c:217-715 | Appends the listed entries of a block; a failure behind the first checks empties the array and resets header and footer |
| BlockDirectory.ReadSlots | libfsxfs/libfsxfs_block_directory.c:407-672 | On arbitrary bytes the slot loop ends, reads only inside the block and advances by the size computed beforehand: its name, file type, padding and tag add up |
| BlockDirectory.EntrySize | libfsxfs/libfsxfs_block_directory.c:470-500 | The size of a used slot is a multiple of 8, at least 16, and the least one that holds the fields |
| BlockDirectory.PaddedSize | libfsxfs/libfsxfs_block_directory.c:470-500 | Adding the padding to the unpadded size gives that size |
| BlockDirectoryFormat.SlotSize | libfsxfs/libfsxfs_block_directory.c:474-489 | The size that the reader advances by is that of the written fields, completed to a multiple of eight |
| BlockDirectoryFormat.TypeByteAgrees | libfsxfs/libfsxfs_block_directory.c:478-482 | Entries carry the type byte on the volumes on which the layout says so |
| DirectoryLayout.CarriesTypeExactly | libfsxfs/libfsxfs_directory_table.c:293-297 | That is on every volume of version 5, and on any other exactly for flags with bit 9 |
| BlockDirectoryFormat.UsedIsTakenForUnusedExactly | libfsxfs/libfsxfs_block_directory.c:407-500 | A written entry is taken for a free slot if and only if its inode number is at least 0xffff000000000000 |
| BlockDirectoryFormat.FreeTaggedEntryIsLost | libfsxfs/libfsxfs_block_directory.c:407-500 | One such entry that disappears from the listing |
| BlockDirectoryFormat.ParseFormattedSlots | libfsxfs/libfsxfs_block_directory.c:407-672 | Parsing any tiling of used and unused slots gives the entries other than `.` and `..`, in order |
| BlockDirectoryFormat.ListedInodes | libfsxfs/libfsxfs_block_directory.c:407-672 | On arbitrary bytes no listed entry has an inode number that starts with the free tag |
| BlockDirectoryFormat.SlotsAreListedExactly | libfsxfs/libfsxfs_block_directory.c:407-672 | A tiling is read as its entries if and only if no inode number of an entry starts with the free tag |
| BlockDirectoryFormat.EndOfEntries | libfsxfs/libfsxfs_block_directory_footer.c:141-226 | The footer's count leads back to the end of the entries, whatever the hash values |
| BlockDirectoryFormat.ParseFormattedBlock | libfsxfs/libfsxfs_block_directory.c:350-672 | The round trip of whole blocks: both versions, with or without footer, with or without file types |
| BlockDirectoryFormat.BlockIsListedExactly | libfsxfs/libfsxfs_block_directory.c:350-672 | The same for whole blocks |
| BlockDirectoryTiling.RegionExactly | libfsxfs/libfsxfs_block_directory.c:407-672 | On arbitrary bytes, a region is accepted with certain entries if and only if untagged slots that list those entries tile it, the last unused one possibly reaching beyond |
| BlockDirectoryTiling.BlockExactly | libfsxfs/libfsxfs_block_directory.c:350-672 | The same for whole blocks, with header and footer |
| BlockDirectoryTiling.CutRegionExactly | libfsxfs/libfsxfs_block_directory.c:407-500 | A tiled region that is cut off is listed as the slots in front of a clean cut, and refused at any other |
| BlockDirectoryTiling.CutExists | libfsxfs/libfsxfs_block_directory.c:407-500 | Every end inside a tiled region cuts it between two slots or inside one |
| BlockDirectoryTiling.ReadsBelowTheEnd | libfsxfs/libfsxfs_block_directory.c:407-672 | What is read depends on no byte behind the end of the entries |
| DirectoryTable.Table.ReadHeader | libfsxfs/libfsxfs_directory_table_header.c:139-275 | Entry count, inode size and parent, for 4-byte or 8-byte inode numbers; refused headers change nothing |
| DirectoryTable.TableHeaderExactly | libfsxfs/libfsxfs_directory_table_header.c:184-250 | On arbitrary bytes, which headers are accepted and what they mean, byte by byte |
| DirectoryTable.Table.ReadData | libfsxfs/libfsxfs_directory_table.c:161-483 | Appends the entries of a short-form directory; a failure empties the array |
| DirectoryTable.ReadEntries | libfsxfs/libfsxfs_directory_table.c:265-461 | On arbitrary bytes the entry loop stays inside the data and advances by the size computed beforehand |
| DirectoryTableFormat.ParseFormattedTable | libfsxfs/libfsxfs_directory_table.c:265-461 | The short-form round trip for both inode sizes, with the one header that does not come back |
| DirectoryTableFormat.EntriesExactly | libfsxfs/libfsxfs_directory_table.c:265-461 | On arbitrary bytes, entries are accepted if and only if as many valid entries stand in the data and mean them |
| DirectoryTableFormat.ShortFormAgreesWithBlockForm | libfsxfs/libfsxfs_directory_table_header.c:184-250 | One directory, written in short form with 4-byte numbers whenever they fit and in block form with its dot entries, is listed the same |
| Directory.ReadBlocks | libfsxfs/libfsxfs_directory.c:413-460 | Lists the blocks of one extent until its size, in 64-bit arithmetic, is used up; ends on every file |
| Directory.ListedExtentIsTiled | libfsxfs/libfsxfs_directory.c:413-460 | If an extent is listed at all, directory blocks tile it: the remaining size reaches exactly zero and never wraps |
| Directory.TiledExtentListing | libfsxfs/libfsxfs_directory.c:413-460 | The listing of a tiled extent is the concatenation of the parses of its blocks |
| Directory.ReadableBlocksListing | libfsxfs/libfsxfs_directory.c:413-460 | When every step of the loop reads a block that can be parsed, the parses are listed one after the other |
| Directory.SingleBlockDirectoryListing | libfsxfs/libfsxfs_directory.c:391-460 | With directory blocks as large as file system blocks, every extent is listed as all of its blocks |
| Directory.ReadExtentBlocks | libfsxfs/libfsxfs_directory.c:331-463 | The extents are listed in order up to the first one at or behind the leaf offset |
| Directory.StoppingEarlyDropsNothing | libfsxfs/libfsxfs_directory.c:363-380 | For extents in logical order, that break drops no data extent |
| Directory.OneExtentFailsAll | libfsxfs/libfsxfs_directory.c:363-440 | An extent that starts behind any signed offset, or a data extent with a block that fails, makes the listing fail |
| Directory.DirectoryListsAllDataBlocks | libfsxfs/libfsxfs_directory.c:331-463 | With directory blocks as large as file system blocks and extents in logical order, the listing is the concatenation of the parses of all blocks of all extents below the leaf offset |
| LargeDirectoryBlocks.CutBlockIsItsSlots | libfsxfs/libfsxfs_block_directory.c:350-406 | The first bytes of a written block are read as its slots up to the cut, or, with a footer, up to the end that the number eight bytes in front of the cut gives |
| LargeDirectoryBlocks.CutBlockExactly | libfsxfs/libfsxfs_block_directory.c:350-672 | Cut at any size, with or without footer, a written block is listed as the slots in front of the end if that falls between slots or behind the size of an unused one, and refused otherwise; it is listed in full if and only if nothing is listed behind |
| LargeDirectoryBlocks.LargeBlockIsListedExactly | libfsxfs/libfsxfs_directory.c:415-447 | A directory block on a volume with smaller file system blocks is listed as its entries if and only if the cut is clean and nothing is listed behind it |
| LargeDirectoryBlocks.EntryBehindTheFirstBlockIsLost | libfsxfs/libfsxfs_directory.c:415-447 | A volume with one directory block of 1024 bytes in blocks of 512, whose only entry the listing does not show |
| Directory.ReadFile | libfsxfs/libfsxfs_directory.c:180-487 | Table or blocks by the form of the inode; every failure behind the first checks leaves no entries |
| DirectoryOnVolume.WrittenDirectoryIsListed | libfsxfs/libfsxfs_directory.c:324-463 | A directory written in the blocks of its extents below logical byte 2^35, each at its group and block, is listed as the entries of all those blocks in order, whatever extents follow from there on |
| DirectoryOnVolume.InlineDirectoryIsListed | libfsxfs/libfsxfs_directory.c:276-305 | A directory written in short form inside its inode is listed as its entries |
| DirectoryOnVolume.UnsupportedForkIsRefused | libfsxfs/libfsxfs_directory.c:180-487 | A directory with any other fork is refused |
| AttributeValues.Values.SetName | libfsxfs/libfsxfs_attribute_values.c:152-309 | Stores prefix, name and terminator; refuses a second name, an empty or too long one and an unknown name space |
| AttributeValues.Values.SetValueData | libfsxfs/libfsxfs_attribute_values.c:314-408 | Stores a copy of the value once, within the allocation limit |
| AttributeValues.StoredNameInjective | libfsxfs/libfsxfs_attribute_values.c:208-294 | Distinct names, or equal names of distinct name spaces, never become the same |
| AttributeLayout.StoredNameIsFullName | libfsxfs/libfsxfs_attribute_values.c:208-294 | Bits 1 to 6 of the flags select user., trusted. or secure.; an empty name is kept empty and any other selection is refused |
| AttributesLeaf.ReadEntry | libfsxfs/libfsxfs_attributes.c:357-608 | Decodes one entry at its values offset, with the 16-bit offset of the code; reads only inside the block |
| AttributesLeaf.ReadLeafValues | libfsxfs/libfsxfs_attributes.c:238-660 | Appends one attribute for each entry of the table, or fails with an empty array behind the first check |
| AttributesLeaf.NoWrapBelow64K | libfsxfs/libfsxfs_attributes.c:329-625 | In a block of less than 65536 bytes the 16-bit offset never wraps |
| AttributesLeaf.WrapExactly | libfsxfs/libfsxfs_attributes.c:329-625 | In a block of 65536 bytes, the one family of entries for which it does |
| AttributesLeaf.WrappedValueIsRead | libfsxfs/libfsxfs_attributes.c:329-625 | One such block: a value that should be refused is read from its first byte |
| AttributesLeaf.LeafExactly | libfsxfs/libfsxfs_attributes.c:329-625 | A leaf is accepted as a list of attributes if and only if the list has one for each entry and each entry points, behind the table, at values that mean it |
| AttributesLeaf.WrittenLocalIsDecoded | libfsxfs/libfsxfs_attributes.c:329-625 | Decoding inverts writing a local attribute anywhere in a block |
| AttributesLeaf.WrittenRemoteIsDecoded | libfsxfs/libfsxfs_attributes.c:329-625 | Decoding inverts writing a remote attribute anywhere in a block |
| AttributesFormat.WrittenLeafIsRead | libfsxfs/libfsxfs_attributes.c:238-660 | The round trip of whole leaf blocks of up to 65536 bytes, for any placement of the values behind the table |
| AttributesFormat.LeafBlockExactly | libfsxfs/libfsxfs_attributes.c:238-660 | On arbitrary bytes of less than 64 KiB, a block is read as a leaf with certain attributes if and only if it holds a leaf, with its count at byte 12 or 56 and its table at 32 or 80, that means them |
| AttributesFormat.WrittenBranchIsRead | libfsxfs/libfsxfs_attributes.c:49-233 | A branch block laid out in the format is read as its sub block numbers |
| AttributesFormat.BranchBlockExactly | libfsxfs/libfsxfs_attributes.c:49-233 | On arbitrary bytes, a block is read as a branch with certain sub blocks if and only if it holds a branch, with its count at byte 12 or 56 and its entries at 16 or 64, that lists them |
| AttributesFormat.WrittenTreeIsReadExactly | libfsxfs/libfsxfs_attributes.c:49-920 | A whole tree written in a fork is read as the attributes of its leaves from left to right if and only if it is at most 257 levels deep; otherwise it is refused |
| Attributes.ReadBranchValues | libfsxfs/libfsxfs_attributes.c:181-231 | Appends the attributes of all sub blocks in order, or fails; the depth budget decreases |
| Attributes.GetFromBlock | libfsxfs/libfsxfs_attributes.c:665-920 | Appends the attributes below a block, resolved through the extents; what each failure leaves in the array |
| Attributes.LookUp | libfsxfs/libfsxfs_attributes.c:723-773 | Finds the first extent that contains the block, if there is one |
| Attributes.GetFromInode | libfsxfs/libfsxfs_attributes.c:925-1059 | From an empty array, every failure of the tree leaves the array empty |
| Attributes.AttributesExactly | libfsxfs/libfsxfs_attributes.c:694-919 | Retrieval from block 0 succeeds if and only if a finite tree of at most 257 levels stands there, and gives its leaves in order |
| Attributes.CyclicAttributesAreRefused | libfsxfs/libfsxfs_attributes.c:694-919 | An attributes fork that leads from block 0 into a cycle is refused |
| Attributes.BlockIsResolvedThroughTheMap | libfsxfs/libfsxfs_attributes.c:761-803 | Inside one group the offset that is read is the one of the physical block in the block map |
| AttributesTable.ReadData | libfsxfs/libfsxfs_attributes_table.c:162-490 | For every table, the ways in which the reading ends and what each leaves in the array, up to where it leaves the data; flags without a prefix are refused before the name is read |
| AttributesTableFormat.ParseFormattedTable | libfsxfs/libfsxfs_attributes_table.c:276-470 | Reading a table written in the format succeeds and appends the attributes it was written from, and has no other effect |
| AttributesTableFormat.HeaderIsRefused | libfsxfs/libfsxfs_attributes_table.c:230-275 | Which tables are refused for their header, and what that leaves in the array |
| AttributesTableFormat.TableIsItsEntries | libfsxfs/libfsxfs_attributes_table.c:230-275 | All others are read as as many entries as their third byte says, from the fifth byte on |
| AttributesTableFormat.OutcomeExactly | libfsxfs/libfsxfs_attributes_table.c:276-470 | On arbitrary bytes: a table is read as certain attributes if and only if as many valid entries as it claims stand at its front and mean them; it is abandoned if and only if the data ends too early; it strays if and only if an accepted name ends behind the data |
| AttributesTableFormat.NameBehindTheTable | libfsxfs/libfsxfs_attributes_table.c:293-303 | A table whose name is read from behind it |
| AttributesTableFormat.UnknownPrefixBehindTheTable | libfsxfs/libfsxfs_attribute_values.c:208-230 | The same table with flags that select no prefix is refused without leaving the data |
| AttributeStreams.GetValueDataStream | libfsxfs/libfsxfs_attributes.c:1065-1333 | The buffer of a local value, or the segments of a remote one; refused if and only if there is no data for a size above zero, no extent, or the version is 5 |
| AttributeStreams.HasStreamExactly | libfsxfs/libfsxfs_attributes.c:1111-1212 | Which values have a stream: in block 0 the empty ones and those with data, elsewhere those whose block some extent holds, before version 5 |
| AttributeStreams.DecodedValueHasStreamExactly | libfsxfs/libfsxfs_attributes.c:1111-1127 | Every decoded local value has a stream; a remote value with block number 0 has one if and only if it is empty |
| AttributeStreams.RemoteValueInBlockZeroIsRefused | libfsxfs/libfsxfs_attributes.c:1111-1127 | The bytes of a remote attribute that has no stream |
| AttributeStreams.RemoteSizesAddUp | libfsxfs/libfsxfs_attributes.c:1234-1320 | The segment sizes add up to the size of the value |
| AttributeStreams.RemoteRepeatsTheExtent | libfsxfs/libfsxfs_attributes.c:1303-1320 | Behind the end of the extent the reading starts over at its first block |
| AttributeStreams.FittingValueIsOneSegment | libfsxfs/libfsxfs_attributes.c:1234-1320 | A value that fits in its extent is one segment at the translated offset of the extent |
| AttributeStreams.FittingValueIsRight | libfsxfs/libfsxfs_attributes.c:1151-1320 | If it also starts there, each of its bytes is the one of the block map |
| AttributeStreams.FirstByteIsRightExactly | libfsxfs/libfsxfs_attributes.c:1273-1274 | The first byte is right if and only if the value starts at the first block of the extent |
| AttributeStreams.ValueIsRightExactly | libfsxfs/libfsxfs_attributes.c:1151-1320 | The whole value is right if and only if it starts at the first block of its extent and fits in it |
| AttributeStreams.ValueIsRightInSoundFork | libfsxfs/libfsxfs_attributes.c:1151-1320 | In a fork of stored extents in order, apart and inside their groups, the whole value is right if and only if it starts at the first block of an extent and fits in it |
| AttributeStreams.ValueInsideExtentIsWrong | libfsxfs/libfsxfs_attributes.c:1273-1274 | A sound fork and a value whose first byte is read from the wrong block |
| MountPath.CopyHexadecimalToInteger | fsxfstools/mount_path_string.c:44-131 | The shifting accumulator computes the 32-bit value of the digits, or fails at the first other character |
| MountPath.ParsePrintHex | fsxfstools/mount_path_string.c:89-128 | The hexadecimal parser inverts printing with zero padding to any length, up to 32 bits |
| MountPathTable.DigitExactly | fsxfstools/mount_path_string.c:89-128 | The characters that are digits, and their values; capital letters on Windows only |
| MountPathTable.TwoDigitsAreRead | fsxfstools/mount_path_string.c:89-128 | Two characters have a value if and only if both are digits, and which |
| MountPath.EscapedWidth | fsxfstools/mount_path_string.c:210-409 | No code point is printed in more than ten units |
| MountPath.CopyFromFileEntryPath | fsxfstools/mount_path_string.c:136-423 | Fills the buffer of 10n+1 units with the escaped name and a terminator; only names that cannot be converted or are too long are refused, never for lack of room |
| MountPath.UnescapedWidth | fsxfstools/mount_path_string.c:528-784 | What stands for a code point is never shorter than the code point |
| MountPath.CopyToFileEntryPath | fsxfstools/mount_path_string.c:428-800 | Fills the buffer of n+1 units with the unescaped path and a terminator; never refused for lack of room |
| MountPathRoundTrip.ShortSetsCoincide | fsxfstools/mount_path_string.c:226-409 | The code points printed as short escapes are those accepted as such, apart from zero |
| MountPathTable.PrinterFollowsTheTable | fsxfstools/mount_path_string.c:252-390 | What is written for every code point below 2^32, character by character, on both platforms |
| MountPathTable.SequenceExactly | fsxfstools/mount_path_string.c:556-760 | The sequences that the parser accepts behind the escape character, and their values, for all paths |
| MountPathRoundTrip.StepInvertsEscape | fsxfstools/mount_path_string.c:528-786 | The parser takes what is printed for one code point as that code point, wherever it stands |
| MountPathRoundTrip.NameRoundTrip | fsxfstools/mount_path_string.c:136-800 | Printing any name of non-zero code points and parsing it behind a separator gives the name behind a separator |
| MountPathRoundTrip.ZeroEndsTheName | fsxfstools/mount_path_string.c:254-257 | A zero ends a name, whatever follows it |
| MountPathRoundTrip.UndecodableNameIsRefused | fsxfstools/mount_path_string.c:226-253 | A name that cannot be decoded behind some code points is refused |
| MountPathRoundTrip.RelativePathIsRefused | fsxfstools/mount_path_string.c:490-500 | A path that does not start with the separator is refused |
| MountPathRoundTrip.MalformedPathIsRefused | fsxfstools/mount_path_string.c:528-786 | So is one in which something that the parser does not accept stands behind a printed name |
| MountPathRoundTrip.PathRoundTrip | fsxfstools/mount_path_string.c:528-786 | The same for whole paths of printed components |
| MountPathRoundTrip.Utf8PathRoundTrip | fsxfstools/mount_path_string.c:528-786 | For UTF-8, without any assumption on the conversions, for all non-zero scalar values |
| MountPathRoundTrip.Utf16PathRoundTrip | fsxfstools/mount_path_string.c:528-786 | For UTF-16, which the Windows build uses, likewise |
| MountPathRoundTrip.PrintedNameIsShortEnough | fsxfstools/mount_path_string.c:185-210 | Every name that is short enough for the printer gives a path that is short enough for the parser |
| MountPathRoundTrip.EscapeInjective | fsxfstools/mount_path_string.c:226-409 | Distinct names get distinct paths |
| MountPathRoundTrip.EscapedIsOneComponent | fsxfstools/mount_path_string.c:226-409 | A printed name holds no separator, no reserved or control character and no unprintable code point |
| MountPathRoundTrip.EscapedEncodesItsPoints | fsxfstools/mount_path_string.c:226-409 | The units that are written are the encoding of exactly those code points |
| UnicodeCodecs.Utf8Inverse | fsxfstools/mount_path_string.c:226-250 | UTF-8 decoding inverts encoding, at any place of a string |
| UnicodeCodecs.Utf8Table | fsxfstools/mount_path_string.c:226-250 | How UTF-8 spreads the bits of a code point over its units |
| UnicodeCodecs.Utf8IsLawful | fsxfstools/mount_path_string.c:226-250 | UTF-8 has every property that the proofs ask of the conversions |
| UnicodeCodecs.Utf16IsLawful | fsxfstools/mount_path_string.c:226-250 | So has UTF-16 |
| UnicodeCodecs.Utf16Table | fsxfstools/mount_path_string.c:226-250 | How UTF-16 does |
| Getopt.Scanner.Next | fsxfstools/fsxfstools_getopt.c:59-187 | One call: the option or mark returned, and the whole new state of the four globals, on all arguments |
| Getopt.FoundAdvances | fsxfstools/fsxfstools_getopt.c:119-186 | Each accepted option uses up an argument or a character of the group |
| Getopt.KnownFirstOption | fsxfstools/fsxfstools_getopt.c:136-186 | What a character that stands in the options means, by the colon behind its first place, the rest of its group and the next argument |
| Getopt.UnknownFirstOption | fsxfstools/fsxfstools_getopt.c:119-135 | What any other character, and a colon, mean |
| Getopt.Run | fsxfstools/fsxfsinfo.c:188-257 | For all arguments, repeated calls end, with the events and the final index of one left-to-right parse |
| Getopt.FlagsAreRead | fsxfstools/fsxfstools_getopt.c:140-154 | Grouped flags are read one by one without leaving their argument |
| Getopt.WordIsRead | fsxfstools/fsxfstools_getopt.c:69-187 | A word of flags and an option with attached or separate argument is read as the options it means |
| Getopt.UnknownOptionEndsTheRun | fsxfstools/fsxfstools_getopt.c:119-135 | An unknown option behind any flags ends the run with its mark, and where |
| Getopt.MissingArgumentEndsTheRun | fsxfstools/fsxfstools_getopt.c:163-181 | An option that lacks its argument at the end of the command line ends it with a colon |
| Getopt.WrittenCommandLineIsRead | fsxfstools/fsxfstools_getopt.c:69-187 | A command line written from any options is read as exactly those, and ends at the first operand, behind the end marker if there is one, if and only if that operand is not a bare marker |
| Getopt.BareMarkerIsUnknown | fsxfstools/fsxfstools_getopt.c:94-135 | A bare marker alone is reported as an unknown option |

## Left out

- libbfio, libfdata, libcdata, libuna, libcerror and libcthreads are not part of this model: the file is a sequence of bytes, the array a sequence of values, the conversions of names any lawful pair of functions. Since the array holds values, that the list of an inode and its caller share extents is not captured.
- Null arguments, failed allocations, locks and debug output: a call either succeeds or fails as the data demands.
- Sizes of buffers in memory above `SSIZE_MAX`, except in the path functions, where the limit decides what is accepted.
- Signed overflow and over-wide shifts: widths follow what reading the superblock admits (`libfsxfs/libfsxfs_superblock.c:657-785`): blocks of at most 65536 bytes, at most 30 relative bits, a directory block size above zero. Conversions that can still overflow wrap around as two's complement. The running offset of the directory loop is not bounded to 64 bits; no file reaches there.
- The inode: which fork an inode has, and its extents, are inputs; the caller builds them with the extent reader or the extents tree.
- `libfsxfs_extent_btree_t.maximum_depth` is a parameter, since initialisation leaves it zero and nothing raises it.
- AttributesTable.ReadData: reports that the reading leaves the data and promises nothing of what the code does from there on, since the data does not determine it. `Attributes.GetFromInode` inherits that.
- Directory.ReadFile: covers directory block sizes above zero, which the superblock guarantees.
- AttributeStreams.GetValueDataStream: covers block sizes above zero, which the superblock guarantees; with a block size of zero the loop of the code does not end.
- AttributeStreams.ValueIsRightExactly: covers extents that are stored and that no earlier extent overlaps, for block maps that do not put the block behind the extent where the extent begins; `AttributeStreams.ValueIsRightInSoundFork` derives all of this from the soundness of the fork.
- BlockDirectoryFormat.SlotsAreListedExactly: covers blocks whose entries `.` and `..` have untagged inode numbers; those are listed neither way.
- Getopt.Scanner.Next: on a bare marker the code looks at the character in memory behind the argument; that character is a parameter. The search for an option is the one of `memchr`, which does not find the terminator.
- Version 5 remote values: the code refuses them. Checksums, name hashes and tables of free space: read for debug output only.
- Reading a directory block through its own file function adds only the read of the block, which `Directory.ReadBlocks` includes.
- FUSE and Dokan callbacks, other tools, decimal parsers, mode strings, time stamps and digests: user interface, or properties one reads off a single body.
