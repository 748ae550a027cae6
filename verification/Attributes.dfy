/**
 The extended attributes of an inode: a tree of branch and leaf blocks whose block numbers are
 resolved through the extents of the attributes fork.
 */
module Attributes {
  import opened Integers
  import opened Bytes
  import opened Collections
  import opened IoHandles
  import opened BoundedTree
  import opened Extents
  import opened AttributeValues
  import opened AttributesLeaf
  import AttributesTable

  /** A branch costs one level, whether or not it has sub blocks. */
  const BRANCH_LEVELS: nat := 1

  function Levels(recursionDepth: int): nat {
    if 0 <= recursionDepth <= MAXIMUM_RECURSION_DEPTH then MAXIMUM_RECURSION_DEPTH + 1 - recursionDepth else 0
  }

  // ---------- What a block is to the reader ----------

  function BranchHeaderSize(io: IoHandle): nat {
    if io.formatVersion == 5 then 8 else 4
  }

  predicate IsLeafSignature(signature: nat) {
    signature == 0x3bee || signature == 0xfbee
  }

  predicate IsBranchSignature(signature: nat) {
    signature == 0x3ebe || signature == 0xfebe
  }

  /** The sub block numbers of n branch entries from an offset on. */
  function SubBlocks(data: seq<byte>, offset: nat, n: nat): (children: seq<nat>)
    requires offset + 8 * n <= |data|
    ensures |children| == n
  {
    if n == 0 then [] else SubBlocks(data, offset, n - 1) + [U32At(data, offset + 8 * (n - 1) + 4)]
  }

  function BranchChildren(io: IoHandle, data: seq<byte>): Option<seq<nat>> {
    var header := BlockHeaderSize(io);
    var offset := header + BranchHeaderSize(io);
    if |data| < offset then None
    else
      var n := U16At(data, header);
      if 8 * n > |data| - offset then None else Some(SubBlocks(data, offset, n))
  }

  /** The byte offset of a block of the fork: the extent's first block, translated, plus the distance. */
  function BlockOffset(io: IoHandle, x: Extent, block: nat): int {
    Int64((io.FileBlock(x.physicalBlockNumber) + (block - x.logicalBlockNumber)) * io.blockSize)
  }

  /** The view of a block whose bytes are given. */
  function DataView(io: IoHandle, data: seq<byte>): View<Attribute> {
    if |data| < BlockHeaderSize(io) then Unreadable
    else
      var signature := U16At(data, 8);
      if IsLeafSignature(signature) then
        (if LeafAttributes(io, data).Some? then LeafView(LeafAttributes(io, data).value) else Unreadable)
      else if IsBranchSignature(signature) then
        (if BranchChildren(io, data).Some? then BranchView(BranchChildren(io, data).value) else Unreadable)
      else Unreadable
  }

  function BlockView(io: IoHandle, file: File, extents: seq<Extent>): nat -> View<Attribute> {
    (b: nat) =>
      match FindExtent(extents, b)
      case None => Unreadable
      case Some(i) =>
        if io.blockSize == 0 then Unreadable
        else
          match ReadAt(file, BlockOffset(io, extents[i], b), io.blockSize)
          case None => Unreadable
          case Some(data) => DataView(io, data)
  }

  /** The attributes below a block of the fork, at a recursion depth. */
  function BlockAttributes(io: IoHandle, file: File, extents: seq<Extent>, block: nat,
                           recursionDepth: int): Option<seq<Attribute>> {
    Visit(BlockView(io, file, extents), BRANCH_LEVELS, Levels(recursionDepth), block)
  }

  // ---------- The recursion ----------

  /** Reads the sub blocks of a branch. A failure can leave attributes in the array. */
  method ReadBranchValues(io: IoHandle, file: File, extents: seq<Extent>, data: seq<byte>,
                          attributes: CArray<Attribute>, recursionDepth: int)
    returns (ok: bool)
    modifies attributes
    ensures var children := BranchChildren(io, data);
            var fuel := Levels(recursionDepth + 1);
            if children.None? then !ok
            else
              var xs := VisitAll(BlockView(io, file, extents), BRANCH_LEVELS, fuel, children.value);
              ok == xs.Some? && (ok ==> attributes.entries == old(attributes.entries) + xs.value)
    decreases Levels(recursionDepth + 1), 2
  {
    hide BlockView;
    var dataOffset := BlockHeaderSize(io);
    var branchHeaderDataSize := BranchHeaderSize(io);
    if dataOffset >= |data| || branchHeaderDataSize > |data| - dataOffset {
      return false;
    }
    var numberOfEntries := U16At(data, dataOffset);
    dataOffset := dataOffset + branchHeaderDataSize;
    var entriesDataSize := 8 * numberOfEntries;
    if entriesDataSize > |data| - dataOffset {
      return false;
    }
    ghost var view, fuel := BlockView(io, file, extents), Levels(recursionDepth + 1);
    ghost var start := dataOffset;
    ghost var children := SubBlocks(data, start, numberOfEntries);
    var blockEntryIndex := 0;
    while blockEntryIndex < numberOfEntries
      invariant 0 <= blockEntryIndex <= numberOfEntries
      invariant dataOffset == start + 8 * blockEntryIndex
      invariant VisitAll(view, BRANCH_LEVELS, fuel, children[..blockEntryIndex]).Some?
      invariant attributes.entries == old(attributes.entries)
                + VisitAll(view, BRANCH_LEVELS, fuel, children[..blockEntryIndex]).value
    {
      SubBlockAt(data, start, numberOfEntries, blockEntryIndex);
      var subBlockNumber := U32At(data, dataOffset + 4);
      dataOffset := dataOffset + 8;
      VisitAllSnoc(view, BRANCH_LEVELS, fuel, children, blockEntryIndex);
      var read := GetFromBlock(io, file, extents, subBlockNumber, attributes, recursionDepth + 1);
      if !read {
        RefusedMember(view, BRANCH_LEVELS, fuel, children, blockEntryIndex);
        return false;
      }
      blockEntryIndex := blockEntryIndex + 1;
    }
    assert children[..numberOfEntries] == children;
    ok := true;
  }

  lemma {:induction false} SubBlockAt(data: seq<byte>, offset: nat, n: nat, i: nat)
    requires i < n && offset + 8 * n <= |data|
    ensures SubBlocks(data, offset, n)[i] == U32At(data, offset + 8 * i + 4)
    decreases n
  {
    if i < n - 1 {
      SubBlockAt(data, offset, n - 1, i);
    }
  }

  /** Appends the attributes below a block. A failure empties the array, unless the block is refused
      before anything is read. */
  method GetFromBlock(io: IoHandle, file: File, extents: seq<Extent>, blockNumber: nat,
                      attributes: CArray<Attribute>, recursionDepth: int)
    returns (ok: bool)
    modifies attributes
    ensures var xs := BlockAttributes(io, file, extents, blockNumber, recursionDepth);
            && ok == xs.Some?
            && (ok ==> attributes.entries == old(attributes.entries) + xs.value)
            && (!ok ==> attributes.entries ==
                        if 0 <= recursionDepth <= MAXIMUM_RECURSION_DEPTH && FindExtent(extents, blockNumber).Some?
                        then [] else old(attributes.entries))
    decreases Levels(recursionDepth), 1
  {
    hide LeafAttributes, BranchChildren, FindExtent;
    if recursionDepth < 0 || recursionDepth > MAXIMUM_RECURSION_DEPTH {
      return false;
    }
    var extentIndex := LookUp(extents, blockNumber);
    if extentIndex >= |extents| {
      return false;
    }
    var extent := extents[extentIndex];
    var blockOffset := io.GroupIndex(extent.physicalBlockNumber) * io.allocationGroupSize
      + io.RelativeBlock(extent.physicalBlockNumber);
    blockOffset := blockOffset + (blockNumber - extent.logicalBlockNumber);
    blockOffset := Int64(blockOffset * io.blockSize);
    assert blockOffset == BlockOffset(io, extent, blockNumber);
    if io.blockSize == 0 {
      attributes.Empty();
      return false;
    }
    var data := ReadAt(file, blockOffset, io.blockSize);
    if data.None? || |data.value| < BlockHeaderSize(io) {
      attributes.Empty();
      return false;
    }
    assert BlockView(io, file, extents)(blockNumber) == DataView(io, data.value);
    var signature := U16At(data.value, 8);
    var read := false;
    if IsLeafSignature(signature) {
      read := ReadLeafValues(io, data.value, attributes);
    } else if IsBranchSignature(signature) {
      read := ReadBranchValues(io, file, extents, data.value, attributes, recursionDepth);
    }
    if !read {
      attributes.Empty();
      return false;
    }
    ok := true;
  }

  /** The loop that looks for the extent of a block. */
  method LookUp(extents: seq<Extent>, block: nat) returns (index: nat)
    ensures index <= |extents|
    ensures FindExtent(extents, block) == if index < |extents| then Some(index) else None
  {
    index := 0;
    while index < |extents|
      invariant index <= |extents|
      invariant forall i | 0 <= i < index :: !extents[i].Contains(block)
    {
      if extents[index].Contains(block) {
        return;
      }
      index := index + 1;
    }
  }

  // ---------- The attributes of an inode ----------

  /** The attributes fork; the extents are absent when the fork lists none. */
  datatype AttributesFork = Unsupported | Inline(data: seq<byte>) | Blocks(extents: Option<seq<Extent>>)

  method GetFromInode(io: IoHandle, file: File, fork: AttributesFork, attributes: CArray<Attribute>)
    returns (status: AttributesTable.Status)
    modifies attributes
    ensures fork.Unsupported? ==> status == AttributesTable.Failure && attributes.entries == old(attributes.entries)
    ensures fork.Inline? ==> AttributesTable.Effect(fork.data, old(attributes.entries), attributes.entries, status)
    ensures fork.Blocks? && fork.extents.None? ==>
              status == AttributesTable.Success && attributes.entries == old(attributes.entries)
    ensures fork.Blocks? && fork.extents.Some? ==>
              var xs := BlockAttributes(io, file, fork.extents.value, 0, 0);
              && status == (if xs.Some? then AttributesTable.Success else AttributesTable.Failure)
              && (xs.Some? ==> attributes.entries == old(attributes.entries) + xs.value)
              && (xs.None? && old(attributes.entries) == [] ==> attributes.entries == [])
  {
    hide BlockAttributes;
    match fork
    case Unsupported =>
      status := AttributesTable.Failure;
    case Inline(data) =>
      status := AttributesTable.ReadData(data, attributes);
    case Blocks(extents) =>
      status := AttributesTable.Success;
      if extents.Some? {
        var read := GetFromBlock(io, file, extents.value, 0, attributes, 0);
        if !read {
          status := AttributesTable.Failure;
        }
      }
  }

  // ---------- What the recursion finds ----------

  /** The retrieval from block 0 succeeds exactly when the fork holds a finite tree of at most 257
      levels there; it yields the attributes of all leaves from left to right. */
  lemma AttributesExactly(io: IoHandle, file: File, extents: seq<Extent>, xs: seq<Attribute>)
    ensures BlockAttributes(io, file, extents, 0, 0) == Some(xs) <==>
            exists t ::
              && Represents(BlockView(io, file, extents), 0, t)
              && BoundedTree.Fits(t, 1, 257)
              && Flatten(t) == xs
  {
    VisitExactly(BlockView(io, file, extents), BRANCH_LEVELS, MAXIMUM_RECURSION_DEPTH + 1, 0, xs);
  }

  /** A fork in which block 0 leads into a cycle of blocks is refused. */
  lemma CyclicAttributesAreRefused(io: IoHandle, file: File, extents: seq<Extent>, p: seq<nat>, cycle: seq<nat>)
    requires p != [] && p[0] == 0 && Path(BlockView(io, file, extents), p)
    requires |cycle| >= 2 && Path(BlockView(io, file, extents), cycle)
    requires cycle[0] == p[|p| - 1] && cycle[|cycle| - 1] == cycle[0]
    ensures BlockAttributes(io, file, extents, 0, 0).None?
  {
    CycleIsRefused(BlockView(io, file, extents), BRANCH_LEVELS, MAXIMUM_RECURSION_DEPTH + 1, p, cycle);
  }

  /** A block number is resolved through the block map: inside one allocation group the offset read
      is that of the physical block which the map gives. */
  lemma BlockIsResolvedThroughTheMap(io: IoHandle, extents: seq<Extent>, block: nat)
    requires FindExtent(extents, block).Some?
    requires var x := extents[FindExtent(extents, block).value];
             && !x.IsSparse() && io.RelativeBlock(x.physicalBlockNumber) + x.numberOfBlocks <= io.GroupSpan()
    ensures var x := extents[FindExtent(extents, block).value];
            && MapAt(extents, block).At?
            && BlockOffset(io, x, block) == io.ByteOffset(MapAt(extents, block).block)
  {
    hide Geometry.RelativeBlock, Geometry.GroupSpan, Geometry.Group, Int64;
    var x := extents[FindExtent(extents, block).value];
    io.RunInsideGroup(x.physicalBlockNumber, block - x.logicalBlockNumber);
    hide Geometry.FileBlock;
  }
}
