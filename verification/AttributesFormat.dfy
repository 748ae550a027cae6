/** Attribute blocks written in the on-disk format, and what reading them back gives. */
module AttributesFormat {
  import opened Integers
  import opened Bytes
  import opened Collections
  import opened IoHandles
  import opened BoundedTree
  import opened Extents
  import opened AttributeValues
  import opened AttributeLayout
  import opened AttributesLeaf
  import opened Attributes

  // ---------- Leaf blocks ----------

  /** An attribute, and where in the block its values stand. */
  datatype LeafEntry =
    | Local(hash: nat, offset: nat, flags: byte, padding: byte, name: seq<byte>, value: seq<byte>)
    | Remote(hash: nat, offset: nat, flags: byte, padding: byte, name: seq<byte>, block: nat, size: nat)
  {
    predicate Valid() {
      && offset < 0x1_0000 && |name| < 256 && FullName(flags, name).Some?
      && match this
         case Local(_, _, _, _, _, value) => flags % 2 == 1 && |value| < 0x1_0000
         case Remote(_, _, _, _, _, block, size) => flags % 2 == 0 && block < 0x1_0000_0000 && size < 0x1_0000_0000
    }

    /** The entry of the table. */
    function TableBytes(): (bytes: seq<byte>)
      ensures |bytes| == 8
    {
      ToBE(hash, 4) + ToBE(offset, 2) + [flags, padding]
    }

    /** What stands at the offset. */
    function ValueBytes(): seq<byte>
      requires Valid()
    {
      match this
      case Local(_, _, _, _, name, value) => ToBE(|value|, 2) + [|name|] + name + value
      case Remote(_, _, _, _, name, block, size) => ToBE(block, 4) + ToBE(size, 4) + [|name|] + name
    }

    function Meaning(): Attribute
      requires Valid()
    {
      var stored := FullName(flags, name).value;
      match this
      case Local(_, _, _, _, _, value) => Attribute(stored, |value|, value, 0)
      case Remote(_, _, _, _, _, block, size) => Attribute(stored, size, [], block)
    }
  }

  predicate AllValid(entries: seq<LeafEntry>) {
    forall e | e in entries :: e.Valid()
  }

  /** The entry stands in the table, and its values behind the table. */
  ghost predicate EntryIsWritten(data: seq<byte>, tableEnd: nat, entryOffset: nat, e: LeafEntry)
    requires e.Valid()
  {
    var end := e.offset + |e.ValueBytes()|;
    && entryOffset + 8 <= |data| && data[entryOffset..entryOffset + 8] == e.TableBytes()
    && tableEnd <= e.offset && end <= |data| && data[e.offset..end] == e.ValueBytes()
  }

  ghost predicate TableIsWritten(data: seq<byte>, tableEnd: nat, entryOffset: nat, entries: seq<LeafEntry>)
    requires AllValid(entries)
    decreases |entries|
  {
    entries == [] ||
    (EntryIsWritten(data, tableEnd, entryOffset, entries[0])
      && TableIsWritten(data, tableEnd, entryOffset + 8, entries[1..]))
  }

  function Meanings(entries: seq<LeafEntry>): seq<Attribute>
    requires AllValid(entries)
  {
    if entries == [] then [] else [entries[0].Meaning()] + Meanings(entries[1..])
  }

  lemma TableFields(data: seq<byte>, entryOffset: nat, e: LeafEntry)
    requires e.offset < 0x1_0000
    requires entryOffset + 8 <= |data| && data[entryOffset..entryOffset + 8] == e.TableBytes()
    ensures U16At(data, entryOffset + 4) == e.offset && data[entryOffset + 6] == e.flags
  {
    var bytes := e.TableBytes();
    assert bytes[4..6] == ToBE(e.offset, 2);
    assert bytes[6] == e.flags;
    hide ToBE;
    SliceOfSlice(data, entryOffset, entryOffset + 8, 4, 2);
    U16AtWritten(data, entryOffset + 4, e.offset);
    assert data[entryOffset + 6] == data[entryOffset..entryOffset + 8][6];
  }

  /** In a block of any size that a volume can have, a written value is decoded as what it means. */
  lemma WrittenValuesAreDecoded(data: seq<byte>, e: LeafEntry)
    requires |data| <= 0x1_0000 && e.Valid()
    requires var end := e.offset + |e.ValueBytes()|; end <= |data| && data[e.offset..end] == e.ValueBytes()
    ensures DecodeValues16(data, e.offset, e.flags) == Some(e.Meaning())
  {
    hide DecodeValues, DecodeValues16, FullName, ToBE, U16At, U32At;
    match e {
      case Local(_, offset, flags, _, name, value) =>
        WrittenLocalIsDecoded(data, offset, flags, name, value);
      case Remote(_, offset, flags, _, name, block, size) =>
        WrittenRemoteIsDecoded(data, offset, flags, name, block, size);
    }
    if |data| < 0x1_0000 {
      NoWrapBelow64K(data, e.offset, e.flags);
    } else {
      WrapExactly(data, e.offset, e.flags);
      if e.Local? {
        LocalSizes(data, e);
      }
    }
  }

  /** The sizes that a written local value gives. */
  lemma LocalSizes(data: seq<byte>, e: LeafEntry)
    requires e.Valid() && e.Local?
    requires var end := e.offset + |e.ValueBytes()|; end <= |data| && data[e.offset..end] == e.ValueBytes()
    ensures |e.ValueBytes()| == 3 + |e.name| + |e.value|
    ensures ValueSize(data, e.offset, e.flags) == |e.value| && NameSize(data, e.offset, e.flags) == |e.name|
  {
    hide ToBE;
    var bytes := e.ValueBytes();
    assert bytes[0..2] == ToBE(|e.value|, 2);
    SliceOfSlice(data, e.offset, e.offset + |bytes|, 0, 2);
    U16AtWritten(data, e.offset, |e.value|);
    assert data[e.offset + 2] == data[e.offset..e.offset + |bytes|][2] == bytes[2];
  }

  lemma WrittenEntryIsDecoded(data: seq<byte>, tableEnd: nat, entryOffset: nat, e: LeafEntry)
    requires |data| <= 0x1_0000 && e.Valid() && EntryIsWritten(data, tableEnd, entryOffset, e)
    ensures entryOffset + 8 <= |data|
    ensures DecodeEntry(data, tableEnd, entryOffset) == Some(e.Meaning())
  {
    hide DecodeValues16, ToBE, FullName;
    TableFields(data, entryOffset, e);
    WrittenValuesAreDecoded(data, e);
  }

  lemma {:induction false} WrittenTableIsDecoded(data: seq<byte>, tableEnd: nat, entryOffset: nat,
                                                 entries: seq<LeafEntry>)
    requires |data| <= 0x1_0000 && AllValid(entries) && entryOffset + 8 * |entries| <= |data|
    requires TableIsWritten(data, tableEnd, entryOffset, entries)
    ensures DecodeTable(data, tableEnd, entryOffset, |entries|) == Some(Meanings(entries))
    decreases |entries|
  {
    hide DecodeEntry, EntryIsWritten, LeafEntry.Valid, LeafEntry.Meaning;
    if entries != [] {
      WrittenEntryIsDecoded(data, tableEnd, entryOffset, entries[0]);
      WrittenTableIsDecoded(data, tableEnd, entryOffset + 8, entries[1..]);
    }
  }

  lemma LeafIsItsTable(io: IoHandle, data: seq<byte>, n: nat)
    requires n < TWO_16 && BlockHeaderSize(io) + LeafHeaderSize(io) + 8 * n <= |data|
    requires data[BlockHeaderSize(io)..BlockHeaderSize(io) + 2] == ToBE(n, 2)
    ensures var table := BlockHeaderSize(io) + LeafHeaderSize(io);
            LeafAttributes(io, data) == DecodeTable(data, table + 8 * n, table, n)
  {
    hide ToBE, U16At, DecodeTable;
    U16AtWritten(data, BlockHeaderSize(io), n);
  }

  /** The bytes of a leaf block, in which the values may stand in any order and place behind the
      table: a signature at byte 8, the number of entries, and the table. */
  ghost predicate HoldsLeaf(io: IoHandle, data: seq<byte>, signature: nat, entries: seq<LeafEntry>) {
    var count, table := if io.formatVersion == 5 then 56 else 12, if io.formatVersion == 5 then 80 else 32;
    && signature in {0x3bee, 0xfbee} && AllValid(entries) && |entries| < 0x1_0000
    && table + 8 * |entries| <= |data|
    && data[8..10] == ToBE(signature, 2)
    && data[count..count + 2] == ToBE(|entries|, 2)
    && TableIsWritten(data, table + 8 * |entries|, table, entries)
  }

  /** A leaf block is read as the attributes it was written from. */
  lemma WrittenLeafIsRead(io: IoHandle, data: seq<byte>, signature: nat, entries: seq<LeafEntry>)
    requires |data| <= 0x1_0000 && HoldsLeaf(io, data, signature, entries)
    ensures AllValid(entries) && DataView(io, data) == LeafView(Meanings(entries))
  {
    hide ToBE, U16At, DecodeTable, TableIsWritten, AllValid, LeafAttributes, Meanings;
    var table := BlockHeaderSize(io) + LeafHeaderSize(io);
    U16AtWritten(data, 8, signature);
    LeafIsItsTable(io, data, |entries|);
    WrittenTableIsDecoded(data, table + 8 * |entries|, table, entries);
  }

  /** The entry that a decoded attribute was written as. */
  lemma EntryAt(data: seq<byte>, tableEnd: nat, entryOffset: nat) returns (e: LeafEntry)
    requires |data| < 0x1_0000 && entryOffset + 8 <= |data| && DecodeEntry(data, tableEnd, entryOffset).Some?
    ensures e.Valid() && EntryIsWritten(data, tableEnd, entryOffset, e)
    ensures DecodeEntry(data, tableEnd, entryOffset) == Some(e.Meaning())
  {
    hide DecodeValues, DecodeValues16, FullName, ToBE, U16At, U32At, LeafEntry.TableBytes, LeafEntry.ValueBytes;
    var offset, flags := U16At(data, entryOffset + 4), data[entryOffset + 6];
    NoWrapBelow64K(data, offset, flags);
    if flags % 2 == 1 {
      e := LocalAt(data, offset, U32At(data, entryOffset), flags, data[entryOffset + 7]);
    } else {
      e := RemoteAt(data, offset, U32At(data, entryOffset), flags, data[entryOffset + 7]);
    }
    TableBytesAt(data, entryOffset, e);
  }

  lemma TableBytesAt(data: seq<byte>, entryOffset: nat, e: LeafEntry)
    requires entryOffset + 8 <= |data|
    requires e.hash == U32At(data, entryOffset) && e.offset == U16At(data, entryOffset + 4)
    requires e.flags == data[entryOffset + 6] && e.padding == data[entryOffset + 7]
    ensures data[entryOffset..entryOffset + 8] == e.TableBytes()
  {
    U32AtBytes(data, entryOffset);
    U16AtBytes(data, entryOffset + 4);
    hide ToBE, U16At, U32At;
    Join(data, entryOffset, entryOffset + 4, entryOffset + 6);
    Join(data, entryOffset, entryOffset + 6, entryOffset + 8);
    assert data[entryOffset + 6..entryOffset + 8] == [e.flags, e.padding];
  }

  lemma LocalAt(data: seq<byte>, offset: nat, hash: nat, flags: byte, padding: byte) returns (e: LeafEntry)
    requires flags % 2 == 1 && offset < 0x1_0000 && DecodeValues(data, offset, flags).Some?
    ensures e.Valid() && DecodeValues(data, offset, flags) == Some(e.Meaning())
    ensures e.hash == hash && e.offset == offset && e.flags == flags && e.padding == padding
    ensures offset + |e.ValueBytes()| <= |data| && data[offset..offset + |e.ValueBytes()|] == e.ValueBytes()
  {
    var nameEnd := offset + 3 + data[offset + 2];
    var valueEnd := nameEnd + U16At(data, offset);
    e := Local(hash, offset, flags, padding, data[offset + 3..nameEnd], data[nameEnd..valueEnd]);
    StoredNameIsFullName(flags, data[offset + 3..nameEnd]);
    U16AtBytes(data, offset);
    hide ToBE, U16At, FullName, StoredName;
    assert [data[offset + 2]] == data[offset + 2..offset + 3];
    Join(data, offset, offset + 2, offset + 3);
    Join(data, offset, offset + 3, nameEnd);
    Join(data, offset, nameEnd, valueEnd);
  }

  lemma RemoteAt(data: seq<byte>, offset: nat, hash: nat, flags: byte, padding: byte) returns (e: LeafEntry)
    requires flags % 2 == 0 && offset < 0x1_0000 && DecodeValues(data, offset, flags).Some?
    ensures e.Valid() && DecodeValues(data, offset, flags) == Some(e.Meaning())
    ensures e.hash == hash && e.offset == offset && e.flags == flags && e.padding == padding
    ensures offset + |e.ValueBytes()| <= |data| && data[offset..offset + |e.ValueBytes()|] == e.ValueBytes()
  {
    var nameEnd := offset + 9 + data[offset + 8];
    e := Remote(hash, offset, flags, padding, data[offset + 9..nameEnd], U32At(data, offset), U32At(data, offset + 4));
    StoredNameIsFullName(flags, data[offset + 9..nameEnd]);
    U32AtBytes(data, offset);
    U32AtBytes(data, offset + 4);
    hide ToBE, U32At, U16At, FullName, StoredName;
    assert [data[offset + 8]] == data[offset + 8..offset + 9];
    Join(data, offset, offset + 4, offset + 8);
    Join(data, offset, offset + 8, offset + 9);
    Join(data, offset, offset + 9, nameEnd);
  }

  lemma {:induction false} EntriesOf(data: seq<byte>, tableEnd: nat, entryOffset: nat, n: nat)
    returns (entries: seq<LeafEntry>)
    requires |data| < 0x1_0000 && entryOffset + 8 * n <= |data| && DecodeTable(data, tableEnd, entryOffset, n).Some?
    ensures AllValid(entries) && |entries| == n && TableIsWritten(data, tableEnd, entryOffset, entries)
    ensures DecodeTable(data, tableEnd, entryOffset, n) == Some(Meanings(entries))
    decreases n
  {
    hide DecodeEntry, EntryIsWritten, LeafEntry.Valid, LeafEntry.Meaning;
    if n == 0 {
      entries := [];
    } else {
      var e := EntryAt(data, tableEnd, entryOffset);
      var more := EntriesOf(data, tableEnd, entryOffset + 8, n - 1);
      entries := [e] + more;
      assert entries[1..] == more;
    }
  }

  /** A block of less than 64 KiB is read as a leaf with certain attributes exactly when it holds a leaf
      that means them. */
  lemma LeafBlockExactly(io: IoHandle, data: seq<byte>, xs: seq<Attribute>)
    requires |data| < 0x1_0000
    ensures DataView(io, data) == LeafView(xs) <==>
            exists signature: nat, entries: seq<LeafEntry> :: HoldsLeaf(io, data, signature, entries)
              && Meanings(entries) == xs
  {
    hide DataView, HoldsLeaf, Meanings;
    if DataView(io, data) == LeafView(xs) {
      var signature, entries := LeafIn(io, data);
    }
    forall signature: nat, entries: seq<LeafEntry> | HoldsLeaf(io, data, signature, entries)
      ensures AllValid(entries) && DataView(io, data) == LeafView(Meanings(entries))
    {
      WrittenLeafIsRead(io, data, signature, entries);
    }
  }

  lemma LeafIn(io: IoHandle, data: seq<byte>) returns (signature: nat, entries: seq<LeafEntry>)
    requires |data| < 0x1_0000 && DataView(io, data).LeafView?
    ensures HoldsLeaf(io, data, signature, entries) && AllValid(entries)
    ensures DataView(io, data) == LeafView(Meanings(entries))
  {
    hide ToBE, U16At, DecodeTable, TableIsWritten, AllValid, Meanings;
    signature := U16At(data, 8);
    U16AtBytes(data, 8);
    var count := BlockHeaderSize(io);
    U16AtBytes(data, count);
    var n, table := U16At(data, count), count + LeafHeaderSize(io);
    entries := EntriesOf(data, table + 8 * n, table, n);
  }

  // ---------- Branch blocks ----------

  /** Each entry of a branch is a hash value and the number of a sub block. */
  ghost predicate ChildrenAreWritten(data: seq<byte>, offset: nat, children: seq<nat>) {
    offset + 8 * |children| <= |data| &&
    forall k: nat | k < |children| ::
      children[k] < 0x1_0000_0000 && data[offset + 8 * k + 4..offset + 8 * k + 8] == ToBE(children[k], 4)
  }

  lemma {:induction false} WrittenChildrenAreRead(data: seq<byte>, offset: nat, children: seq<nat>, n: nat)
    requires n <= |children| && ChildrenAreWritten(data, offset, children)
    ensures offset + 8 * n <= |data|
    ensures SubBlocks(data, offset, n) == children[..n]
    decreases n
  {
    hide ToBE, U32At;
    if n > 0 {
      WrittenChildrenAreRead(data, offset, children, n - 1);
      U32AtWritten(data, offset + 8 * (n - 1) + 4, children[n - 1]);
    }
  }

  /** The bytes of a branch block: a signature at byte 8, the number of entries, and the entries. */
  ghost predicate HoldsBranch(io: IoHandle, data: seq<byte>, signature: nat, children: seq<nat>) {
    var count, table := if io.formatVersion == 5 then 56 else 12, if io.formatVersion == 5 then 64 else 16;
    && signature in {0x3ebe, 0xfebe} && |children| < 0x1_0000
    && table + 8 * |children| <= |data|
    && data[8..10] == ToBE(signature, 2)
    && data[count..count + 2] == ToBE(|children|, 2)
    && ChildrenAreWritten(data, table, children)
  }

  /** A branch block is read as its sub block numbers. */
  lemma WrittenBranchIsRead(io: IoHandle, data: seq<byte>, signature: nat, children: seq<nat>)
    requires HoldsBranch(io, data, signature, children)
    ensures DataView(io, data) == BranchView(children)
  {
    hide ToBE, U16At, SubBlocks, ChildrenAreWritten;
    U16AtWritten(data, 8, signature);
    U16AtWritten(data, BlockHeaderSize(io), |children|);
    WrittenChildrenAreRead(data, BlockHeaderSize(io) + BranchHeaderSize(io), children, |children|);
    assert children[..|children|] == children;
  }

  /** A block is read as a branch with certain sub blocks exactly when it holds a branch that lists them. */
  lemma BranchBlockExactly(io: IoHandle, data: seq<byte>, children: seq<nat>)
    ensures DataView(io, data) == BranchView(children) <==>
            exists signature: nat :: HoldsBranch(io, data, signature, children)
  {
    hide DataView, HoldsBranch;
    if DataView(io, data) == BranchView(children) {
      var signature := BranchIn(io, data, children);
    }
    forall signature: nat | HoldsBranch(io, data, signature, children)
      ensures DataView(io, data) == BranchView(children)
    {
      WrittenBranchIsRead(io, data, signature, children);
    }
  }

  lemma BranchIn(io: IoHandle, data: seq<byte>, children: seq<nat>) returns (signature: nat)
    requires DataView(io, data) == BranchView(children)
    ensures HoldsBranch(io, data, signature, children)
  {
    hide ToBE, U16At, SubBlocks, ChildrenAreWritten, LeafAttributes;
    signature := U16At(data, 8);
    U16AtBytes(data, 8);
    U16AtBytes(data, BlockHeaderSize(io));
    ChildrenStand(data, BlockHeaderSize(io) + BranchHeaderSize(io), U16At(data, BlockHeaderSize(io)));
  }

  lemma ChildrenStand(data: seq<byte>, offset: nat, n: nat)
    requires offset + 8 * n <= |data|
    ensures ChildrenAreWritten(data, offset, SubBlocks(data, offset, n))
  {
    hide ToBE, U32At, SubBlocks;
    forall k: nat | k < n
      ensures SubBlocks(data, offset, n)[k] < 0x1_0000_0000
      ensures data[offset + 8 * k + 4..offset + 8 * k + 8] == ToBE(SubBlocks(data, offset, n)[k], 4)
    {
      SubBlockAt(data, offset, n, k);
      U32AtBytes(data, offset + 8 * k + 4);
    }
  }

  // ---------- Whole trees ----------

  /** What the block of a leaf and of a branch holds: its bytes, and what they were written from. */
  datatype LeafPart = LeafPart(data: seq<byte>, signature: nat, entries: seq<LeafEntry>)
  datatype BranchPart = BranchPart(data: seq<byte>, signature: nat)

  type Node = Placed<LeafPart, BranchPart>

  function AttributesOf(leaf: LeafPart): seq<Attribute> {
    if AllValid(leaf.entries) then Meanings(leaf.entries) else []
  }

  function DataOf(node: Node): seq<byte> {
    if node.LeafAt? then node.leaf.data else node.branch.data
  }

  ghost predicate IsNode(io: IoHandle, node: Node) {
    match node
    case LeafAt(_, leaf) => HoldsLeaf(io, leaf.data, leaf.signature, leaf.entries)
    case BranchAt(_, branch, subtrees) => HoldsBranch(io, branch.data, branch.signature, BlocksOf(subtrees))
  }

  /** The bytes of a block of the fork. */
  function BlockData(io: IoHandle, file: File, extents: seq<Extent>, b: nat): Option<seq<byte>> {
    match FindExtent(extents, b)
    case None => None
    case Some(i) => ReadAt(file, BlockOffset(io, extents[i], b), io.blockSize)
  }

  /** The fork holds the tree below a node. */
  ghost predicate IsWritten(io: IoHandle, file: File, extents: seq<Extent>, node: Node)
    decreases node, 0
  {
    && IsNode(io, node) && BlockData(io, file, extents, node.block) == Some(DataOf(node))
    && (node.BranchAt? ==> AllWritten(io, file, extents, node.subtrees))
  }

  ghost predicate AllWritten(io: IoHandle, file: File, extents: seq<Extent>, nodes: seq<Node>)
    decreases nodes, 1
  {
    forall i | 0 <= i < |nodes| :: IsWritten(io, file, extents, nodes[i])
  }

  /** The view of the block that a node is written in. */
  lemma WrittenView(io: IoHandle, file: File, extents: seq<Extent>, node: Node)
    requires io.blockSize > 0 && IsNode(io, node) && BlockData(io, file, extents, node.block) == Some(DataOf(node))
    ensures node.LeafAt? ==> AllValid(node.leaf.entries)
    ensures BlockView(io, file, extents)(node.block) ==
            if node.LeafAt? then LeafView(Meanings(node.leaf.entries)) else BranchView(BlocksOf(node.subtrees))
  {
    hide DataView, HoldsLeaf, HoldsBranch, BlockOffset, FindExtent, Meanings;
    assert BlockView(io, file, extents)(node.block) == DataView(io, DataOf(node));
    if node.LeafAt? {
      LeafEntriesAreValid(io, node);
      WrittenLeafIsRead(io, node.leaf.data, node.leaf.signature, node.leaf.entries);
    } else {
      WrittenBranchIsRead(io, node.branch.data, node.branch.signature, BlocksOf(node.subtrees));
    }
  }

  lemma {:induction false} WrittenTreeIsHeld(io: IoHandle, file: File, extents: seq<Extent>, node: Node)
    requires io.blockSize > 0 && IsWritten(io, file, extents, node)
    ensures Represents(BlockView(io, file, extents), node.block, TreeOf(AttributesOf, node))
    decreases node, 0
  {
    hide BlockView, IsNode, BlockData, BlocksOf, TreesOf, Meanings;
    WrittenView(io, file, extents, node);
    if node.BranchAt? {
      WrittenTreesAreHeld(io, file, extents, node.subtrees);
    }
  }

  lemma {:induction false} WrittenTreesAreHeld(io: IoHandle, file: File, extents: seq<Extent>, nodes: seq<Node>)
    requires io.blockSize > 0 && AllWritten(io, file, extents, nodes)
    ensures RepresentsAll(BlockView(io, file, extents), BlocksOf(nodes), TreesOf(AttributesOf, nodes))
    decreases nodes, 1
  {
    hide BlockView, IsWritten, TreeOf, Represents, BlocksOf;
    forall i | 0 <= i < |nodes|
      ensures Represents(BlockView(io, file, extents), BlocksOf(nodes)[i], TreesOf(AttributesOf, nodes)[i])
    {
      assert IsWritten(io, file, extents, nodes[i]);
      BlockOfNode(nodes, i);
      WrittenTreeIsHeld(io, file, extents, nodes[i]);
    }
  }

  lemma LeafEntriesAreValid(io: IoHandle, node: Node)
    requires IsNode(io, node) && node.LeafAt?
    ensures AllValid(node.leaf.entries)
  {
    hide AllValid, TableIsWritten;
  }

  /** A tree that is written in a fork, at block 0, is read as the attributes of its leaves from left to
      right exactly when it is at most 257 levels deep. */
  lemma WrittenTreeIsReadExactly(io: IoHandle, file: File, extents: seq<Extent>, root: Node)
    requires io.blockSize > 0 && IsWritten(io, file, extents, root) && root.block == 0
    ensures var tree := TreeOf(AttributesOf, root);
            BlockAttributes(io, file, extents, 0, 0) ==
            if Depth(tree) <= 257 then Some(Flatten(tree)) else None
  {
    hide BlockView, IsWritten, TreeOf, Represents, BoundedTree.Fits, Depth, Visit;
    var tree, view := TreeOf(AttributesOf, root), BlockView(io, file, extents);
    WrittenTreeIsHeld(io, file, extents, root);
    FitsExactly(tree, 257);
    if Depth(tree) <= 257 {
      VisitComplete(view, BRANCH_LEVELS, 257, 0, tree);
    } else if Visit(view, BRANCH_LEVELS, 257, 0).Some? {
      var t := VisitSound(view, BRANCH_LEVELS, 257, 0);
      RepresentsUnique(view, 0, tree, t);
      assert false;
    }
  }
}
