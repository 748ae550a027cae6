/** Extents B+ trees written in the on-disk format, and what reading them back gives. */
module ExtentBtreeFormat {
  import opened Integers
  import opened Bytes
  import opened Collections
  import opened IoHandles
  import opened BoundedTree
  import opened Extents
  import opened ExtentBtree
  import BtreeBlock

  // ---------- The layout of a block ----------

  /** BMA3 in version 5, BMAP in any other one. */
  function Magic(io: IoHandle): seq<byte> {
    if io.formatVersion == 5 then [0x42, 0x4d, 0x41, 0x33] else [0x42, 0x4d, 0x41, 0x50]
  }

  /** Everything in front of the records: 72 bytes in version 5, 24 in any other one. */
  function HeaderBytes(io: IoHandle): nat {
    if io.formatVersion == 5 then 72 else 24
  }

  lemma LayoutAgrees(io: IoHandle)
    ensures Magic(io) == Signature(io) && HeaderBytes(io) == BtreeBlock.HeaderSize(io.formatVersion, 8)
  {
  }

  /** Only a block that starts with these bytes, and has room for its header, is read at all. */
  lemma ReadableBlockStarts(io: IoHandle, file: File, maximumDepth: nat, b: nat)
    requires !NodeView(io, file, maximumDepth)(b).Unreadable?
    ensures var at := io.ByteOffset(b);
            && 0 <= at && at + io.blockSize <= |file| && HeaderBytes(io) <= io.blockSize
            && file[at..at + 4] == Magic(io)
  {
    hide Geometry.ByteOffset, RecordsView;
    var at := io.ByteOffset(b);
    SliceOfSlice(file, at, at + io.blockSize, 0, 4);
  }

  // ---------- Single blocks ----------

  lemma WrittenNodeIsRead(io: IoHandle, file: File, maximumDepth: nat, b: nat, header: BtreeBlock.Header,
                          links: seq<byte>, records: seq<byte>)
    requires io.allocationGroupSize > 0 && io.blockSize > 0
    requires |links| == HeaderBytes(io) - 8
    requires header.signature == Magic(io)
    requires header.level < 0x1_0000 && header.numberOfRecords < 0x1_0000
    requires ReadAt(file, io.ByteOffset(b), io.blockSize) == Some(BtreeBlock.Format(header, links, records))
    ensures NodeView(io, file, maximumDepth)(b) == if header.level > maximumDepth then Unreadable
            else RecordsView(header, records)
  {
    hide BtreeBlock.Format, BtreeBlock.Parse, RecordsView;
    LayoutAgrees(io);
    BtreeBlock.ParseFormat(io, 8, header, links, records);
  }

  /** The block at an offset holds a node of the tree: these records, behind a header with these fields. */
  ghost predicate HoldsNode(io: IoHandle, file: File, b: nat, level: nat, n: nat, links: seq<byte>,
                            records: seq<byte>) {
    && level < 0x1_0000 && n < 0x1_0000 && |links| == HeaderBytes(io) - 8
    && records != [] && n <= |records| / 16
    && ReadAt(file, io.ByteOffset(b), io.blockSize) ==
       Some(BtreeBlock.Format(BtreeBlock.Header(Magic(io), level, n), links, records))
  }

  /** A block is accepted exactly when it holds a node of no higher level than the maximum depth; level 0
      is a leaf with as many extents, any other one a branch with as many sub blocks. */
  lemma NodeExactly(io: IoHandle, file: File, maximumDepth: nat, b: nat, view: View<Extent>)
    requires io.allocationGroupSize > 0 && io.blockSize > 0 && !view.Unreadable?
    ensures NodeView(io, file, maximumDepth)(b) == view <==>
            exists level: nat, n: nat, links: seq<byte>, records: seq<byte> ::
              && HoldsNode(io, file, b, level, n, links, records) && level <= maximumDepth
              && view == if level == 0 then LeafView(DecodeExtents(records, n)) else BranchView(Children(records, n))
  {
    hide NodeView, HoldsNode, DecodeExtents, Children;
    if NodeView(io, file, maximumDepth)(b) == view {
      var level, n, links, records := NodeIn(io, file, maximumDepth, b);
    }
    forall level: nat, n: nat, links: seq<byte>, records: seq<byte> | HoldsNode(io, file, b, level, n, links, records)
      && level <= maximumDepth
      ensures n <= |records| / 16
      ensures NodeView(io, file, maximumDepth)(b) ==
              if level == 0 then LeafView(DecodeExtents(records, n)) else BranchView(Children(records, n))
    {
      HeldNodeIsRead(io, file, maximumDepth, b, level, n, links, records);
    }
  }

  lemma HeldNodeIsRead(io: IoHandle, file: File, maximumDepth: nat, b: nat, level: nat, n: nat, links: seq<byte>,
                       records: seq<byte>)
    requires io.allocationGroupSize > 0 && io.blockSize > 0
    requires HoldsNode(io, file, b, level, n, links, records) && level <= maximumDepth
    ensures n <= |records| / 16
    ensures NodeView(io, file, maximumDepth)(b) ==
            if level == 0 then LeafView(DecodeExtents(records, n)) else BranchView(Children(records, n))
  {
    hide NodeView, BtreeBlock.Format, DecodeExtents, Children, Geometry.ByteOffset;
    WrittenNodeIsRead(io, file, maximumDepth, b, BtreeBlock.Header(Magic(io), level, n), links, records);
  }

  lemma NodeIn(io: IoHandle, file: File, maximumDepth: nat, b: nat)
    returns (level: nat, n: nat, links: seq<byte>, records: seq<byte>)
    requires io.allocationGroupSize > 0 && io.blockSize > 0 && !NodeView(io, file, maximumDepth)(b).Unreadable?
    ensures HoldsNode(io, file, b, level, n, links, records) && level <= maximumDepth
    ensures n <= |records| / 16
    ensures NodeView(io, file, maximumDepth)(b) ==
            if level == 0 then LeafView(DecodeExtents(records, n)) else BranchView(Children(records, n))
  {
    LayoutAgrees(io);
    hide BtreeBlock.Parse, BtreeBlock.Format, DecodeExtents, Children, Geometry.ByteOffset, Magic, Signature;
    var data := ReadAt(file, io.ByteOffset(b), io.blockSize).value;
    var (header, found) := BtreeBlock.Parse(io, 8, data).value;
    level, n, records := header.level, header.numberOfRecords, found;
    BtreeBlock.ParseExactly(io, 8, data, header, records);
    links :| 8 + |links| == BtreeBlock.HeaderBytes(io.formatVersion == 5, 8)
      && data == BtreeBlock.Format(header, links, records);
  }

  lemma WrittenLeafIsRead(io: IoHandle, file: File, maximumDepth: nat, b: nat, links: seq<byte>, xs: seq<Extent>,
                          rest: seq<byte>)
    requires io.allocationGroupSize > 0 && io.blockSize > 0
    requires |links| == HeaderBytes(io) - 8
    requires |xs| < 0x1_0000 && EncodeExtents(xs) + rest != []
    requires forall e | e in xs :: Packable(e) && e.physicalBlockNumber < 0x800_0000_0000
    requires ReadAt(file, io.ByteOffset(b), io.blockSize) ==
             Some(BtreeBlock.Format(BtreeBlock.Header(Magic(io), 0, |xs|), links, EncodeExtents(xs) + rest))
    ensures NodeView(io, file, maximumDepth)(b) == LeafView(xs)
  {
    hide DecodeExtents, EncodeExtents;
    DecodeEncodeList(xs, rest);
    var header := BtreeBlock.Header(Magic(io), 0, |xs|);
    WrittenNodeIsRead(io, file, maximumDepth, b, header, links, EncodeExtents(xs) + rest);
    hide NodeView, DecodeExtents, EncodeExtents, BtreeBlock.Format, Packable;
  }

  function EncodeNumbers(numbers: seq<nat>): (data: seq<byte>)
    ensures |data| == 8 * |numbers|
  {
    if numbers == [] then [] else EncodeNumbers(numbers[..|numbers| - 1]) + ToBE(numbers[|numbers| - 1], 8)
  }

  lemma {:induction false} ChildrenWritten(records: seq<byte>, base: nat, children: seq<nat>, n: nat)
    requires base == |records| / 16 * 8 && n <= |children| <= |records| / 16
    requires records[base..base + 8 * |children|] == EncodeNumbers(children)
    requires forall c | c in children :: c < 0x1_0000_0000_0000_0000
    ensures Children(records, n) == children[..n]
    decreases n
  {
    hide ToBE;
    if n > 0 {
      ChildrenWritten(records, base, children, n - 1);
      NumberAt(children, n - 1);
      assert children[n - 1] in children;
      NumberWritten(records, base, EncodeNumbers(children), n - 1, children[n - 1]);
    }
  }

  lemma NumberWritten(records: seq<byte>, base: nat, numbers: seq<byte>, i: nat, value: nat)
    requires base + |numbers| <= |records| && 8 * i + 8 <= |numbers| && value < TWO_64
    requires records[base..base + |numbers|] == numbers
    requires numbers[8 * i..8 * i + 8] == ToBE(value, 8)
    ensures U64At(records, base + 8 * i) == value
  {
    SliceOfSlice(records, base, base + |numbers|, 8 * i, 8);
    U64AtWritten(records, base + 8 * i, value);
  }

  lemma {:induction false} NumberAt(numbers: seq<nat>, i: nat)
    requires i < |numbers|
    ensures EncodeNumbers(numbers)[8 * i..8 * i + 8] == ToBE(numbers[i], 8)
    decreases |numbers|
  {
    if i < |numbers| - 1 {
      NumberAt(numbers[..|numbers| - 1], i);
    }
  }

  lemma WrittenBranchIsRead(io: IoHandle, file: File, maximumDepth: nat, b: nat, links: seq<byte>, level: nat,
                            keys: seq<byte>, children: seq<nat>, rest: seq<byte>)
    requires io.allocationGroupSize > 0 && io.blockSize > 0
    requires |links| == HeaderBytes(io) - 8
    requires 1 <= level <= maximumDepth && level < 0x1_0000
    requires 1 <= |children| < 0x1_0000 && forall c | c in children :: c < 0x1_0000_0000_0000_0000
    requires var records := keys + EncodeNumbers(children) + rest;
             && |keys| == |records| / 16 * 8 && |children| <= |records| / 16
             && ReadAt(file, io.ByteOffset(b), io.blockSize) ==
                Some(BtreeBlock.Format(BtreeBlock.Header(Magic(io), level, |children|), links, records))
    ensures NodeView(io, file, maximumDepth)(b) == BranchView(children)
  {
    hide EncodeNumbers, Children, BtreeBlock.Format, BtreeBlock.Parse;
    var records := keys + EncodeNumbers(children) + rest;
    WrittenNodeIsRead(io, file, maximumDepth, b, BtreeBlock.Header(Magic(io), level, |children|), links, records);
    SliceMiddle(keys, EncodeNumbers(children), rest, 0, 8 * |children|);
    ChildrenWritten(records, |keys|, children, |children|);
    assert children[..|children|] == children;
  }

  // ---------- Whole trees ----------

  /** What the block of a leaf and of a branch holds besides the sub block numbers. */
  datatype LeafPart = LeafPart(links: seq<byte>, extents: seq<Extent>, rest: seq<byte>)
  datatype BranchPart = BranchPart(links: seq<byte>, level: nat, keys: seq<byte>, rest: seq<byte>)

  type Node = Placed<LeafPart, BranchPart>

  function ExtentsOf(leaf: LeafPart): seq<Extent> {
    leaf.extents
  }

  function LevelOf(node: Node): nat {
    if node.LeafAt? then 0 else node.branch.level
  }

  function LinksOf(node: Node): seq<byte> {
    if node.LeafAt? then node.leaf.links else node.branch.links
  }

  function HeaderOf(io: IoHandle, node: Node): BtreeBlock.Header {
    BtreeBlock.Header(Magic(io), LevelOf(node), if node.LeafAt? then |node.leaf.extents| else |node.subtrees|)
  }

  function RecordsOf(node: Node): seq<byte> {
    match node
    case LeafAt(_, leaf) => EncodeExtents(leaf.extents) + leaf.rest
    case BranchAt(_, branch, subtrees) => branch.keys + EncodeNumbers(BlocksOf(subtrees)) + branch.rest
  }

  /** The fields of this node fit the format. */
  ghost predicate IsNode(io: IoHandle, node: Node) {
    && |LinksOf(node)| == HeaderBytes(io) - 8
    && match node
       case LeafAt(_, leaf) =>
         && |leaf.extents| < 0x1_0000 && RecordsOf(node) != []
         && forall e | e in leaf.extents :: Packable(e) && e.physicalBlockNumber < 0x800_0000_0000
       case BranchAt(_, branch, subtrees) =>
         && 1 <= branch.level < 0x1_0000 && |subtrees| < 0x1_0000
         && BranchFits(branch.keys, subtrees, RecordsOf(node))
  }

  /** The sub blocks stand behind the space for as many keys as fit. */
  ghost predicate BranchFits(keys: seq<byte>, subtrees: seq<Node>, records: seq<byte>) {
    && 1 <= |subtrees| <= |records| / 16 && |keys| == |records| / 16 * 8
    && forall c | c in BlocksOf(subtrees) :: c < 0x1_0000_0000_0000_0000
  }

  /** The volume holds the tree below a node, each level one below the other. */
  ghost predicate IsWritten(io: IoHandle, file: File, node: Node)
    decreases node, 0
  {
    && IsNode(io, node)
    && ReadAt(file, io.ByteOffset(node.block), io.blockSize) ==
       Some(BtreeBlock.Format(HeaderOf(io, node), LinksOf(node), RecordsOf(node)))
    && (node.BranchAt? ==> AllWritten(io, file, node.branch.level - 1, node.subtrees))
  }

  ghost predicate AllWritten(io: IoHandle, file: File, level: nat, nodes: seq<Node>)
    decreases nodes, 1
  {
    forall i | 0 <= i < |nodes| :: LevelOf(nodes[i]) == level && IsWritten(io, file, nodes[i])
  }

  /** The view of the block that a node is written in. */
  lemma WrittenView(io: IoHandle, file: File, maximumDepth: nat, node: Node)
    requires io.allocationGroupSize > 0 && io.blockSize > 0 && IsWritten(io, file, node)
    ensures NodeView(io, file, maximumDepth)(node.block) ==
            if LevelOf(node) > maximumDepth then Unreadable
            else if node.LeafAt? then LeafView(node.leaf.extents)
            else BranchView(BlocksOf(node.subtrees))
  {
    hide NodeView, EncodeExtents, EncodeNumbers, BtreeBlock.Format, Packable, Geometry.ByteOffset;
    match node {
      case LeafAt(block, LeafPart(links, extents, rest)) =>
        WrittenLeafIsRead(io, file, maximumDepth, block, links, extents, rest);
      case BranchAt(block, BranchPart(links, level, keys, rest), subtrees) =>
        if level > maximumDepth {
          WrittenNodeIsRead(io, file, maximumDepth, block, HeaderOf(io, node), links, RecordsOf(node));
        } else {
          WrittenBranchIsRead(io, file, maximumDepth, block, links, level, keys, BlocksOf(subtrees), rest);
        }
    }
  }

  lemma {:induction false} WrittenTreeIsHeld(io: IoHandle, file: File, maximumDepth: nat, node: Node)
    requires io.allocationGroupSize > 0 && io.blockSize > 0
    requires IsWritten(io, file, node) && LevelOf(node) <= maximumDepth
    ensures Represents(NodeView(io, file, maximumDepth), node.block, TreeOf(ExtentsOf, node))
    decreases node, 0
  {
    hide NodeView, IsNode, RecordsOf, HeaderOf, BlocksOf, TreesOf, IsWritten;
    WrittenView(io, file, maximumDepth, node);
    if node.BranchAt? {
      SubtreesAreWritten(io, file, node);
      WrittenTreesAreHeld(io, file, maximumDepth, node.branch.level - 1, node.subtrees);
    }
  }

  lemma SubtreesAreWritten(io: IoHandle, file: File, node: Node)
    requires IsWritten(io, file, node) && node.BranchAt?
    ensures 1 <= node.branch.level && node.subtrees != [] && AllWritten(io, file, node.branch.level - 1, node.subtrees)
  {
    hide AllWritten;
  }

  lemma {:induction false} WrittenTreesAreHeld(io: IoHandle, file: File, maximumDepth: nat, level: nat,
                                               nodes: seq<Node>)
    requires io.allocationGroupSize > 0 && io.blockSize > 0
    requires AllWritten(io, file, level, nodes) && level <= maximumDepth
    ensures RepresentsAll(NodeView(io, file, maximumDepth), BlocksOf(nodes), TreesOf(ExtentsOf, nodes))
    decreases nodes, 1
  {
    hide NodeView, IsWritten, TreeOf, Represents, BlocksOf;
    forall i | 0 <= i < |nodes|
      ensures Represents(NodeView(io, file, maximumDepth), BlocksOf(nodes)[i], TreesOf(ExtentsOf, nodes)[i])
    {
      assert LevelOf(nodes[i]) == level && IsWritten(io, file, nodes[i]);
      BlockOfNode(nodes, i);
      WrittenTreeIsHeld(io, file, maximumDepth, nodes[i]);
    }
  }

  /** A tree fits exactly in more levels than its own. */
  lemma {:induction false} WrittenTreeFits(io: IoHandle, file: File, node: Node, levels: nat)
    requires IsWritten(io, file, node)
    ensures Fits(TreeOf(ExtentsOf, node), BRANCH_FUEL, levels) <==> LevelOf(node) < levels
    decreases node, 0
  {
    hide IsWritten, TreesOf;
    if node.BranchAt? && levels > 0 {
      SubtreesAreWritten(io, file, node);
      WrittenTreesFit(io, file, node.branch.level - 1, node.subtrees, levels - 1);
    }
  }

  lemma {:induction false} WrittenTreesFit(io: IoHandle, file: File, level: nat, nodes: seq<Node>, levels: nat)
    requires AllWritten(io, file, level, nodes) && nodes != []
    ensures FitsAll(TreesOf(ExtentsOf, nodes), BRANCH_FUEL, levels) <==> level < levels
    decreases nodes, 1
  {
    hide IsWritten, TreeOf, Fits;
    forall i | 0 <= i < |nodes|
      ensures Fits(TreesOf(ExtentsOf, nodes)[i], BRANCH_FUEL, levels) <==> level < levels
    {
      assert LevelOf(nodes[i]) == level && IsWritten(io, file, nodes[i]);
      WrittenTreeFits(io, file, nodes[i], levels);
    }
    assert Fits(TreesOf(ExtentsOf, nodes)[0], BRANCH_FUEL, levels) <==> level < levels;
  }

  /** The root node: level, number of sub blocks, keys and sub block numbers. */
  function FormatRoot(level: nat, keys: seq<byte>, subtrees: seq<Node>, rest: seq<byte>): seq<byte> {
    ToBE(level, 2) + ToBE(|subtrees|, 2) + (keys + EncodeNumbers(BlocksOf(subtrees)) + rest)
  }

  lemma RootFields(level: nat, keys: seq<byte>, subtrees: seq<Node>, rest: seq<byte>)
    requires level < 0x1_0000 && |subtrees| < 0x1_0000
    requires BranchFits(keys, subtrees, keys + EncodeNumbers(BlocksOf(subtrees)) + rest)
    ensures var data := FormatRoot(level, keys, subtrees, rest);
            && subtrees != [] && |data| > 4
            && U16At(data, 0) == level && U16At(data, 2) == |subtrees| <= (|data| - 4) / 16
            && Children(data[4..], |subtrees|) == BlocksOf(subtrees)
  {
    hide ToBE, EncodeNumbers, Children, BlocksOf;
    var blocks := BlocksOf(subtrees);
    var records := keys + EncodeNumbers(blocks) + rest;
    var data := FormatRoot(level, keys, subtrees, rest);
    assert data[0..2] == ToBE(level, 2) && data[2..4] == ToBE(|subtrees|, 2) && data[4..] == records;
    U16AtWritten(data, 0, level);
    U16AtWritten(data, 2, |subtrees|);
    SliceMiddle(keys, EncodeNumbers(blocks), rest, 0, 8 * |blocks|);
    ChildrenWritten(records, |keys|, blocks, |blocks|);
    assert blocks[..|blocks|] == blocks;
  }

  /** A B+ tree that is written on a volume is read, as the extents of its leaves from left to right,
      exactly when the level below the root is no higher than the maximum depth and the root no
      higher than the recursion can reach. */
  lemma WrittenTreeIsReadExactly(io: IoHandle, file: File, maximumDepth: nat, level: nat, keys: seq<byte>,
                                 subtrees: seq<Node>, rest: seq<byte>)
    requires io.allocationGroupSize > 0 && io.blockSize > 0
    requires 1 <= level < 0x1_0000 && |subtrees| < 0x1_0000
    requires BranchFits(keys, subtrees, keys + EncodeNumbers(BlocksOf(subtrees)) + rest)
    requires AllWritten(io, file, level - 1, subtrees)
    ensures RootExtents(io, file, maximumDepth, FormatRoot(level, keys, subtrees, rest)) ==
            if level <= maximumDepth + 1 && level <= 257
            then Some(FlattenAll(TreesOf(ExtentsOf, subtrees))) else None
  {
    hide NodeView, AllWritten, FormatRoot, TreesOf, BlocksOf, BranchFits, Children, RootExtents, VisitAll, U16At,
         EncodeNumbers, FlattenAll;
    var data := FormatRoot(level, keys, subtrees, rest);
    RootFields(level, keys, subtrees, rest);
    RootIsVisited(io, file, maximumDepth, data);
    WrittenTreesAreVisited(io, file, maximumDepth, level - 1, subtrees);
  }

  lemma RootIsVisited(io: IoHandle, file: File, maximumDepth: nat, data: seq<byte>)
    requires |data| > 4 && U16At(data, 0) > 0 && U16At(data, 2) <= (|data| - 4) / 16
    ensures RootExtents(io, file, maximumDepth, data) ==
            VisitAll(NodeView(io, file, maximumDepth), BRANCH_FUEL, Fuel(1), Children(data[4..], U16At(data, 2)))
  {
    hide NodeView, VisitAll, Children;
  }

  lemma WrittenTreesAreVisited(io: IoHandle, file: File, maximumDepth: nat, level: nat, nodes: seq<Node>)
    requires io.allocationGroupSize > 0 && io.blockSize > 0
    requires AllWritten(io, file, level, nodes) && nodes != []
    ensures VisitAll(NodeView(io, file, maximumDepth), BRANCH_FUEL, Fuel(1), BlocksOf(nodes)) ==
            if level <= maximumDepth && level <= 256
            then Some(FlattenAll(TreesOf(ExtentsOf, nodes))) else None
  {
    hide NodeView, IsWritten, TreeOf, Represents, FlattenAll, Visit, VisitAll, Fits;
    var view, blocks, trees := NodeView(io, file, maximumDepth), BlocksOf(nodes), TreesOf(ExtentsOf, nodes);
    WrittenTreesFit(io, file, level, nodes, Fuel(1));
    if level > maximumDepth {
      assert LevelOf(nodes[0]) == level && IsWritten(io, file, nodes[0]);
      WrittenView(io, file, maximumDepth, nodes[0]);
      UnreadableIsRefused(view, BRANCH_FUEL, Fuel(1), blocks);
    } else {
      WrittenTreesAreHeld(io, file, maximumDepth, level, nodes);
      if level <= 256 {
        VisitAllComplete(view, BRANCH_FUEL, Fuel(1), blocks, trees);
      } else if VisitAll(view, BRANCH_FUEL, Fuel(1), blocks).Some? {
        var ts := VisitAllSound(view, BRANCH_FUEL, Fuel(1), blocks);
        RepresentsAllUnique(view, blocks, trees, ts);
        assert false;
      }
    }
  }

  // ---------- A tree that is too high ----------

  const EXAMPLE_IO: IoHandle := Geometry(4, 0, 512, 16, 512, 4)

  function ExampleLeaf(e: Extent): Node {
    LeafAt(1, LeafPart(Zeros(16), [e], Zeros(472)))
  }

  function ExampleBranch(e: Extent): Node {
    BranchAt(0, BranchPart(Zeros(16), 1, Zeros(240), Zeros(240)), [ExampleLeaf(e)])
  }

  function FormatNode(io: IoHandle, node: Node): seq<byte> {
    BtreeBlock.Format(HeaderOf(io, node), LinksOf(node), RecordsOf(node))
  }

  /** Two blocks: a branch, and the leaf below it. */
  function ExampleVolume(e: Extent): File {
    FormatNode(EXAMPLE_IO, ExampleBranch(e)) + FormatNode(EXAMPLE_IO, ExampleLeaf(e))
  }

  lemma ExampleNodes(e: Extent)
    requires Packable(e) && e.physicalBlockNumber < 0x800_0000_0000
    ensures IsNode(EXAMPLE_IO, ExampleLeaf(e)) && IsNode(EXAMPLE_IO, ExampleBranch(e))
    ensures |RecordsOf(ExampleLeaf(e))| == |RecordsOf(ExampleBranch(e))| == 488
  {
    hide EncodeExtents, EncodeNumbers, Packable;
    var leaf, branch := ExampleLeaf(e), ExampleBranch(e);
    assert |RecordsOf(leaf)| == 488 && |RecordsOf(branch)| == 488;
    BranchExampleFits(e);
  }

  lemma BranchExampleFits(e: Extent)
    ensures BranchFits(Zeros(240), [ExampleLeaf(e)], RecordsOf(ExampleBranch(e)))
  {
    hide EncodeNumbers;
    assert BlocksOf([ExampleLeaf(e)]) == [1];
    assert |RecordsOf(ExampleBranch(e))| == 488;
  }

  lemma ExampleOffsets()
    ensures EXAMPLE_IO.ByteOffset(0) == 0 && EXAMPLE_IO.ByteOffset(1) == 512
  {
    assert Pow2(4) == 16;
  }

  lemma ExampleSize(node: Node)
    requires |LinksOf(node)| == 16 && |RecordsOf(node)| == 488
    ensures |FormatNode(EXAMPLE_IO, node)| == 512
  {
    hide RecordsOf;
  }

  lemma ExampleIsWritten(e: Extent)
    requires Packable(e) && e.physicalBlockNumber < 0x800_0000_0000
    ensures IsWritten(EXAMPLE_IO, ExampleVolume(e), ExampleBranch(e))
  {
    hide FormatNode, IsNode, RecordsOf, HeaderOf, BtreeBlock.Format, Packable, Geometry.ByteOffset;
    var file, leaf, branch := ExampleVolume(e), ExampleLeaf(e), ExampleBranch(e);
    var first, second := FormatNode(EXAMPLE_IO, branch), FormatNode(EXAMPLE_IO, leaf);
    ExampleNodes(e);
    ExampleOffsets();
    ExampleSize(leaf);
    ExampleSize(branch);
    assert file[0..512] == first && file[512..1024] == second;
    ReadsAsFormatted(file, leaf, 512);
    ReadsAsFormatted(file, branch, 0);
    assert IsWritten(EXAMPLE_IO, file, leaf);
    assert AllWritten(EXAMPLE_IO, file, 0, [leaf]);
  }

  lemma ReadsAsFormatted(file: File, node: Node, offset: nat)
    requires offset + 512 <= |file| && file[offset..offset + 512] == FormatNode(EXAMPLE_IO, node)
    ensures ReadAt(file, offset, 512) ==
            Some(BtreeBlock.Format(HeaderOf(EXAMPLE_IO, node), LinksOf(node), RecordsOf(node)))
  {
    hide BtreeBlock.Format;
  }

  /** A root over one branch over one leaf, in blocks of 512 bytes: the initial maximum depth refuses
      it, the next higher one reads its extent. */
  lemma ThreeLevelsAreRefused(e: Extent)
    requires Packable(e) && e.physicalBlockNumber < 0x800_0000_0000
    ensures var data := FormatRoot(2, Zeros(8), [ExampleBranch(e)], []);
            && RootExtents(EXAMPLE_IO, ExampleVolume(e), 1, data) == Some([e])
            && RootExtents(EXAMPLE_IO, ExampleVolume(e), 0, data) == None
  {
    hide IsWritten, RootExtents, FormatRoot, ExampleVolume;
    var nodes := [ExampleBranch(e)];
    ExampleIsWritten(e);
    assert BlocksOf(nodes) == [0];
    WrittenTreeIsReadExactly(EXAMPLE_IO, ExampleVolume(e), 0, 2, Zeros(8), nodes, []);
    WrittenTreeIsReadExactly(EXAMPLE_IO, ExampleVolume(e), 1, 2, Zeros(8), nodes, []);
    OneExtent(e);
  }

  lemma OneExtent(e: Extent)
    ensures FlattenAll(TreesOf(ExtentsOf, [ExampleBranch(e)])) == [e]
  {
    var leaves: seq<Tree<Extent>> := TreesOf(ExtentsOf, [ExampleLeaf(e)]);
    assert leaves[0] == TreeOf(ExtentsOf, ExampleLeaf(e)) == Leaf([e]) && leaves[1..] == [];
    assert FlattenAll(leaves) == [e];
    var trees := TreesOf(ExtentsOf, [ExampleBranch(e)]);
    assert trees[0] == TreeOf(ExtentsOf, ExampleBranch(e)) == Branch(leaves) && trees[1..] == [];
  }
}
