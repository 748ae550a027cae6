/**
 The extents B+ tree: extents are collected by a recursion over blocks that nothing but a depth
 limit bounds, and the list is completed with a sparse tail.
 */
module ExtentBtree {
  import opened Integers
  import opened Bytes
  import opened Collections
  import opened IoHandles
  import opened BoundedTree
  import opened Extents
  import BtreeBlock

  /** A branch block is entered up to the recursion limit, a leaf also one level below it. */
  const BRANCH_FUEL: nat := 2

  /** The number of levels that a node visited at a recursion depth may have. */
  function Fuel(recursionDepth: int): nat {
    if 0 <= recursionDepth <= MAXIMUM_RECURSION_DEPTH then MAXIMUM_RECURSION_DEPTH + 2 - recursionDepth else 1
  }

  function Signature(io: IoHandle): seq<byte> {
    if io.formatVersion == 5 then [0x42, 0x4d, 0x41, 0x33] else [0x42, 0x4d, 0x41, 0x50]
  }

  /** The sub block numbers of a branch: the values follow the space for as many keys as fit. */
  function Children(records: seq<byte>, n: nat): (children: seq<nat>)
    requires n <= |records| / 16
    ensures |children| == n
  {
    if n == 0 then [] else Children(records, n - 1) + [U64At(records, |records| / 16 * 8 + 8 * (n - 1))]
  }

  /** What the records of a node are to its reader. */
  function RecordsView(header: BtreeBlock.Header, records: seq<byte>): View<Extent> {
    if records == [] || header.numberOfRecords > |records| / 16 then Unreadable
    else if header.level == 0 then LeafView(DecodeExtents(records, header.numberOfRecords))
    else BranchView(Children(records, header.numberOfRecords))
  }

  /** What a block of the volume is to the reader of the tree. */
  function NodeView(io: IoHandle, file: File, maximumDepth: nat): nat -> View<Extent> {
    (b: nat) =>
      if io.allocationGroupSize == 0 || io.blockSize == 0 then Unreadable
      else
        match ReadAt(file, io.ByteOffset(b), io.blockSize)
        case None => Unreadable
        case Some(data) =>
          match BtreeBlock.Parse(io, 8, data)
          case None => Unreadable
          case Some((header, records)) =>
            if header.signature != Signature(io) || header.level > maximumDepth then Unreadable
            else RecordsView(header, records)
  }

  /** The checks that a branch passes before any of its sub blocks is read. */
  predicate BranchReadable(n: nat, records: seq<byte>, recursionDepth: int) {
    records != [] && 0 <= recursionDepth <= MAXIMUM_RECURSION_DEPTH && n <= |records| / 16
  }

  /** All extents below a branch whose records are given, at a recursion depth. */
  function BranchExtents(io: IoHandle, file: File, maximumDepth: nat, n: nat, records: seq<byte>,
                         recursionDepth: int): Option<seq<Extent>> {
    if !BranchReadable(n, records, recursionDepth) then None
    else VisitAll(NodeView(io, file, maximumDepth), BRANCH_FUEL, Fuel(recursionDepth + 1), Children(records, n))
  }

  function NodeExtents(io: IoHandle, file: File, maximumDepth: nat, b: nat, recursionDepth: int): Option<seq<Extent>> {
    Visit(NodeView(io, file, maximumDepth), BRANCH_FUEL, Fuel(recursionDepth), b)
  }

  /** All extents of the tree whose root node is given. */
  function RootExtents(io: IoHandle, file: File, maximumDepth: nat, data: seq<byte>): Option<seq<Extent>> {
    if |data| < 4 || U16At(data, 0) == 0 then None
    else BranchExtents(io, file, maximumDepth, U16At(data, 2), data[4..], 0)
  }

  // ---------- The recursion ----------

  method GetExtentsFromBranchNode(io: IoHandle, file: File, maximumDepth: nat, n: nat, records: seq<byte>,
                                  extents: CArray<Extent>, addSparse: bool, recursionDepth: int)
    returns (ok: bool)
    modifies extents
    ensures var xs := BranchExtents(io, file, maximumDepth, n, records, recursionDepth);
            && ok == xs.Some?
            && (ok ==> extents.entries == AddExtents(old(extents.entries), xs.value, addSparse))
            && (!ok ==> extents.entries == if BranchReadable(n, records, recursionDepth) then []
              else old(extents.entries))
    decreases Fuel(recursionDepth), 0
  {
    hide AddExtents, NodeView;
    if records == [] {
      return false;
    }
    if recursionDepth < 0 || recursionDepth > MAXIMUM_RECURSION_DEPTH {
      return false;
    }
    var numberOfKeyValuePairs := |records| / 16;
    if n > numberOfKeyValuePairs {
      return false;
    }
    ghost var view := NodeView(io, file, maximumDepth);
    ghost var fuel := Fuel(recursionDepth + 1);
    ghost var children := Children(records, n);
    var recordsDataOffset := numberOfKeyValuePairs * 8;
    NothingAdded(extents.entries, addSparse);
    var recordIndex := 0;
    while recordIndex < n
      invariant 0 <= recordIndex <= n
      invariant recordsDataOffset == numberOfKeyValuePairs * 8 + 8 * recordIndex
      invariant VisitAll(view, BRANCH_FUEL, fuel, children[..recordIndex]).Some?
      invariant extents.entries ==
                AddExtents(old(extents.entries), VisitAll(view, BRANCH_FUEL, fuel, children[..recordIndex]).value,
                  addSparse)
    {
      ChildAt(records, n, recordIndex);
      var subBlockNumber := U64At(records, recordsDataOffset);
      recordsDataOffset := recordsDataOffset + 8;
      VisitAllSnoc(view, BRANCH_FUEL, fuel, children, recordIndex);
      var read := GetExtentsFromNode(io, file, maximumDepth, subBlockNumber, extents, addSparse, recursionDepth + 1);
      if !read {
        RefusedMember(view, BRANCH_FUEL, fuel, children, recordIndex);
        extents.Empty();
        return false;
      }
      AddExtentsAppend(old(extents.entries), VisitAll(view, BRANCH_FUEL, fuel, children[..recordIndex]).value,
                       Visit(view, BRANCH_FUEL, fuel, children[recordIndex]).value, addSparse);
      recordIndex := recordIndex + 1;
    }
    assert children[..n] == children;
    ok := true;
  }

  method GetExtentsFromNode(io: IoHandle, file: File, maximumDepth: nat, blockNumber: nat,
                            extents: CArray<Extent>, addSparse: bool, recursionDepth: int)
    returns (ok: bool)
    modifies extents
    ensures var xs := NodeExtents(io, file, maximumDepth, blockNumber, recursionDepth);
            && ok == xs.Some?
            && (ok ==> extents.entries == AddExtents(old(extents.entries), xs.value, addSparse))
            && (!ok ==> extents.entries == if io.allocationGroupSize == 0 || io.blockSize == 0
              then old(extents.entries) else [])
    decreases Fuel(recursionDepth), 1
  {
    hide AddExtents, DecodeExtents, Geometry.GroupIndex, Geometry.RelativeBlock, Int64;
    if io.allocationGroupSize == 0 {
      return false;
    }
    if io.blockSize == 0 {
      return false;
    }
    var allocationGroupIndex := io.GroupIndex(blockNumber);
    var relativeBlockNumber := io.RelativeBlock(blockNumber);
    var offset := Int64((allocationGroupIndex * io.allocationGroupSize + relativeBlockNumber) * io.blockSize);
    assert offset == io.ByteOffset(blockNumber);
    var block := new BtreeBlock.Block(8);
    var read := block.ReadFile(io, file, offset);
    if !read {
      extents.Empty();
      return false;
    }
    var header := block.header.value;
    if header.signature != Signature(io) {
      extents.Empty();
      return false;
    }
    if header.level > maximumDepth {
      extents.Empty();
      return false;
    }
    if header.level == 0 {
      read := ReadExtents(extents, header.numberOfRecords, block.recordsData, addSparse);
    } else {
      read := GetExtentsFromBranchNode(io, file, maximumDepth, header.numberOfRecords, block.recordsData,
                                       extents, addSparse, recursionDepth);
    }
    if !read {
      extents.Empty();
      return false;
    }
    ok := true;
  }

  lemma NothingAdded(xs: seq<Extent>, addSparse: bool)
    ensures AddExtents(xs, [], addSparse) == xs
  {
  }

  lemma {:induction false} ChildAt(records: seq<byte>, n: nat, i: nat)
    requires i < n <= |records| / 16
    ensures |records| / 16 * 8 + 8 * i + 8 <= |records|
    ensures Children(records, n)[i] == U64At(records, |records| / 16 * 8 + 8 * i)
    decreases n
  {
    if i < n - 1 {
      ChildAt(records, n - 1, i);
    }
  }

  /** Collects the extents of a tree and completes them to numberOfBlocks. */
  method GetExtentsFromRootNode(io: IoHandle, file: File, maximumDepth: nat, numberOfBlocks: nat, data: seq<byte>,
                                extents: CArray<Extent>, addSparse: bool)
    returns (ok: bool)
    modifies extents
    ensures var xs := RootExtents(io, file, maximumDepth, data);
            && ok == xs.Some?
            && (ok ==> var all := AddExtents(old(extents.entries), xs.value, addSparse);
                       extents.entries == if addSparse then FillTail(all, numberOfBlocks) else all)
            && (!ok ==> extents.entries == if |data| < 4 then old(extents.entries) else [])
  {
    hide AddExtents, BranchExtents;
    if |data| < 4 {
      return false;
    }
    var level := U16At(data, 0);
    var numberOfRecords := U16At(data, 2);
    if level == 0 {
      extents.Empty();
      return false;
    }
    var read := GetExtentsFromBranchNode(io, file, maximumDepth, numberOfRecords, data[4..], extents, addSparse, 0);
    if !read {
      extents.Empty();
      return false;
    }
    var count := |extents.entries|;
    var logicalBlockNumber := 0;
    if count > 0 {
      logicalBlockNumber := U64(extents.entries[count - 1].End());
    }
    if addSparse && logicalBlockNumber < numberOfBlocks {
      if count == 0 || !extents.entries[count - 1].IsSparse() {
        extents.Append(Extent(logicalBlockNumber, 0, 0, FLAG_IS_SPARSE));
        count := count + 1;
      }
      var last := extents.entries[count - 1];
      var grown := last.(numberOfBlocks := U32(last.numberOfBlocks + (numberOfBlocks - logicalBlockNumber)));
      extents.entries := extents.entries[count - 1 := grown];
    }
    ok := true;
  }

  // ---------- What the recursion finds ----------

  /** A root is accepted exactly when it is a branch whose sub blocks hold finite trees of at most
      257 levels; the extents are then all leaf extents from left to right. */
  lemma RootExactly(io: IoHandle, file: File, maximumDepth: nat, data: seq<byte>, xs: seq<Extent>)
    ensures RootExtents(io, file, maximumDepth, data) == Some(xs) <==>
            && |data| > 4 && U16At(data, 0) != 0 && U16At(data, 2) <= (|data| - 4) / 16
            && exists ts ::
                 && RepresentsAll(NodeView(io, file, maximumDepth), Children(data[4..], U16At(data, 2)), ts)
                 && FitsAll(ts, 2, 257)
                 && FlattenAll(ts) == xs
  {
    if |data| > 4 && U16At(data, 2) <= (|data| - 4) / 16 {
      VisitAllExactly(NodeView(io, file, maximumDepth), BRANCH_FUEL, Fuel(1), Children(data[4..], U16At(data, 2)), xs);
    }
  }

  /** A tree from which a path leads into a cycle of blocks is refused. */
  lemma CyclicTreeIsRefused(io: IoHandle, file: File, maximumDepth: nat, data: seq<byte>, p: seq<nat>, cycle: seq<nat>)
    requires |data| > 4 && U16At(data, 2) <= (|data| - 4) / 16
    requires p != [] && p[0] in Children(data[4..], U16At(data, 2)) && Path(NodeView(io, file, maximumDepth), p)
    requires |cycle| >= 2 && Path(NodeView(io, file, maximumDepth), cycle)
    requires cycle[0] == p[|p| - 1] && cycle[|cycle| - 1] == cycle[0]
    ensures RootExtents(io, file, maximumDepth, data).None?
  {
    var children := Children(data[4..], U16At(data, 2));
    var i :| 0 <= i < |children| && children[i] == p[0];
    CycleIsRefused(NodeView(io, file, maximumDepth), BRANCH_FUEL, Fuel(1), p, cycle);
    RefusedMember(NodeView(io, file, maximumDepth), BRANCH_FUEL, Fuel(1), children, i);
  }

  /** Without the size of groups or of blocks no block is read. */
  lemma NothingIsReadWithoutSizes(io: IoHandle, file: File, maximumDepth: nat, b: nat)
    requires io.allocationGroupSize == 0 || io.blockSize == 0
    ensures NodeView(io, file, maximumDepth)(b) == Unreadable
  {
  }

  // ---------- What the limit on the level of a block costs ----------

  /** The level that the block with a number claims to have. */
  function Level(io: IoHandle, file: File, b: nat): nat {
    match ReadAt(file, io.ByteOffset(b), io.blockSize)
    case None => 0
    case Some(data) =>
      match BtreeBlock.Parse(io, 8, data)
      case None => 0
      case Some((header, _)) => header.level
  }

  lemma NarrowerView(io: IoHandle, file: File, narrow: nat, wide: nat)
    requires narrow <= wide
    ensures Restricts(NodeView(io, file, narrow), NodeView(io, file, wide), (b: nat) => Level(io, file, b) <= narrow)
  {
    hide BtreeBlock.Parse, RecordsView, Geometry.ByteOffset;
  }

  /** A tree that is accepted up to one level is accepted up to a lower level, with the same extents,
      exactly when no block of the tree lies above the lower level; otherwise it is refused. */
  lemma LevelLimitExactly(io: IoHandle, file: File, narrow: nat, wide: nat, data: seq<byte>)
    requires narrow <= wide && RootExtents(io, file, wide, data).Some?
    ensures |data| > 4 && U16At(data, 2) <= (|data| - 4) / 16
    ensures RootExtents(io, file, narrow, data) ==
            if forall b, c | b in Children(data[4..], U16At(data, 2)) && Reaches(NodeView(io, file, wide), b, c) ::
                 Level(io, file, c) <= narrow
            then RootExtents(io, file, wide, data) else None
  {
    hide NodeView, Level, Children, Reaches, Visit, VisitAll;
    NarrowerView(io, file, narrow, wide);
    var keep := (b: nat) => Level(io, file, b) <= narrow;
    var children := Children(data[4..], U16At(data, 2));
    RestrictedVisitAll(NodeView(io, file, narrow), NodeView(io, file, wide), keep, BRANCH_FUEL, Fuel(1), children);
  }

  /** With the maximum depth of zero that initialisation leaves, an acceptable tree is accepted exactly
      when all blocks below its root are leaves. */
  lemma InitialDepthExactly(io: IoHandle, file: File, maximumDepth: nat, data: seq<byte>)
    requires RootExtents(io, file, maximumDepth, data).Some?
    ensures |data| > 4 && U16At(data, 2) <= (|data| - 4) / 16
    ensures RootExtents(io, file, 0, data) ==
            if forall b | b in Children(data[4..], U16At(data, 2)) :: NodeView(io, file, maximumDepth)(b).LeafView?
            then RootExtents(io, file, maximumDepth, data) else None
  {
    hide NodeView, Level, Reaches, RootExtents;
    LevelLimitExactly(io, file, 0, maximumDepth, data);
    SubBlocksAreReadable(io, file, maximumDepth, data);
    var view, children := NodeView(io, file, maximumDepth), Children(data[4..], U16At(data, 2));
    forall b | b in children
      ensures view(b).LeafView? <==> Level(io, file, b) == 0
      ensures Reaches(view, b, b)
      ensures view(b).LeafView? ==> forall c | Reaches(view, b, c) :: c == b
    {
      LevelZeroIsLeaf(io, file, maximumDepth, b);
      ReachesItself(view, b);
      if view(b).LeafView? {
        LeafReachesOnlyItself(view, b);
      }
    }
  }

  lemma SubBlocksAreReadable(io: IoHandle, file: File, maximumDepth: nat, data: seq<byte>)
    requires RootExtents(io, file, maximumDepth, data).Some?
    ensures |data| > 4 && U16At(data, 2) <= (|data| - 4) / 16
    ensures forall b | b in Children(data[4..], U16At(data, 2)) :: !NodeView(io, file, maximumDepth)(b).Unreadable?
  {
    hide NodeView, Children;
    var view, children := NodeView(io, file, maximumDepth), Children(data[4..], U16At(data, 2));
    forall b | b in children
      ensures !view(b).Unreadable?
    {
      AcceptedMember(view, BRANCH_FUEL, Fuel(1), children, b);
    }
  }

  lemma LevelZeroIsLeaf(io: IoHandle, file: File, maximumDepth: nat, b: nat)
    ensures var view := NodeView(io, file, maximumDepth)(b);
            !view.Unreadable? ==> (view.LeafView? <==> Level(io, file, b) == 0)
  {
    hide BtreeBlock.Parse, Geometry.ByteOffset;
  }

  lemma LeafReachesOnlyItself<T(!new)>(view: nat -> View<T>, b: nat)
    requires view(b).LeafView?
    ensures forall c | Reaches(view, b, c) :: c == b
  {
    forall c | Reaches(view, b, c)
      ensures c == b
    {
      if c != b {
        var child := ReachesThroughChild(view, b, c);
      }
    }
  }

  // ---------- What the completed list means ----------

  /** Extents decoded from records never overflow a 64-bit block number. */
  lemma {:induction false} DecodedInRange(data: seq<byte>, n: nat)
    requires 16 * n <= |data|
    ensures InRange(DecodeExtents(data, n))
  {
    if n > 0 {
      DecodedInRange(data, n - 1);
    }
  }

  lemma {:induction false} TreeInRange(io: IoHandle, file: File, maximumDepth: nat, b: nat, t: Tree<Extent>)
    requires Represents(NodeView(io, file, maximumDepth), b, t)
    ensures InRange(Flatten(t))
    decreases t, 0, 0
  {
    var view := NodeView(io, file, maximumDepth);
    if t.Branch? {
      TreesInRange(io, file, maximumDepth, view(b).children, t.subtrees);
    } else {
      hide DecodeExtents, InRange;
      var data := ReadAt(file, io.ByteOffset(b), io.blockSize).value;
      var (header, records) := BtreeBlock.Parse(io, 8, data).value;
      DecodedInRange(records, header.numberOfRecords);
    }
  }

  lemma {:induction false} TreesInRange(io: IoHandle, file: File, maximumDepth: nat, bs: seq<nat>,
                                        ts: seq<Tree<Extent>>)
    requires RepresentsAll(NodeView(io, file, maximumDepth), bs, ts)
    ensures InRange(FlattenAll(ts))
    decreases ts, 1, |ts|
  {
    hide NodeView;
    if ts != [] {
      assert Represents(NodeView(io, file, maximumDepth), bs[0], ts[0]);
      TreeInRange(io, file, maximumDepth, bs[0], ts[0]);
      TreesInRange(io, file, maximumDepth, bs[1..], ts[1..]);
    }
  }

  lemma LeavesInRange(io: IoHandle, file: File, maximumDepth: nat, data: seq<byte>)
    requires RootExtents(io, file, maximumDepth, data).Some?
    ensures InRange(RootExtents(io, file, maximumDepth, data).value)
  {
    var raw := RootExtents(io, file, maximumDepth, data).value;
    RootExactly(io, file, maximumDepth, data, raw);
    hide RootExtents;
    var ts :| RepresentsAll(NodeView(io, file, maximumDepth), Children(data[4..], U16At(data, 2)), ts)
      && FlattenAll(ts) == raw;
    TreesInRange(io, file, maximumDepth, Children(data[4..], U16At(data, 2)), ts);
  }

  /** For a tree whose leaf extents are in order, the list that the reader completes puts every block
      where the leaves put it; if the holes fit the length field, it has no gap and covers the file. */
  lemma CompletedTreeMeansItsLeaves(io: IoHandle, file: File, maximumDepth: nat, data: seq<byte>, numberOfBlocks: nat,
                                    block: nat)
    requires RootExtents(io, file, maximumDepth, data).Some?
    requires var raw := RootExtents(io, file, maximumDepth, data).value;
             Ordered(raw) && numberOfBlocks < TWO_64
    ensures var raw := RootExtents(io, file, maximumDepth, data).value;
            var filled := AddExtents([], raw, true);
            var all := FillTail(filled, numberOfBlocks);
            && MapAt(all, block) == MapAt(raw, block)
            && (GapsFit(raw) && TailLength(filled, numberOfBlocks) < TWO_32 ==>
                  GapFree(all) && EndOf(all) == CompletedEnd(raw, numberOfBlocks))
  {
    var raw := RootExtents(io, file, maximumDepth, data).value;
    LeavesInRange(io, file, maximumDepth, data);
    hide MapAt, FillTail, AddExtents, RootExtents, GapFree, Ordered, TailLength, EndOf;
    CompletedListMeansTheSame(raw, numberOfBlocks, block);
  }

  lemma CompletedListMeansTheSame(raw: seq<Extent>, numberOfBlocks: nat, block: nat)
    requires InRange(raw) && Ordered(raw) && numberOfBlocks < TWO_64
    ensures var filled := AddExtents([], raw, true);
            var all := FillTail(filled, numberOfBlocks);
            && MapAt(all, block) == MapAt(raw, block)
            && (GapsFit(raw) && TailLength(filled, numberOfBlocks) < TWO_32 ==>
                  GapFree(all) && EndOf(all) == CompletedEnd(raw, numberOfBlocks))
  {
    hide MapAt, GapFree, Ordered, AddExtents, InRange, GapsFit, TailLength;
    var filled := AddExtents([], raw, true);
    FilledIsGapFree(raw);
    FilledMeansTheSame(raw, block);
    EndOfAdded(raw);
    FilledTailMeansTheSame(filled, numberOfBlocks, block);
    if GapsFit(raw) && TailLength(filled, numberOfBlocks) < TWO_32 && EndOf(filled) < numberOfBlocks {
      FilledTailEnds(filled, numberOfBlocks);
    }
  }
}
