/** Leaf blocks of extended attributes: an entry table that points at values all over the block. */
module AttributesLeaf {
  import opened Integers
  import opened Bytes
  import opened Collections
  import opened IoHandles
  import opened AttributeValues
  import opened AttributeLayout

  function BlockHeaderSize(io: IoHandle): nat {
    if io.formatVersion == 5 then 56 else 12
  }

  function LeafHeaderSize(io: IoHandle): nat {
    if io.formatVersion == 5 then 24 else 20
  }

  predicate IsLocal(flags: byte) {
    flags % 2 == 1
  }

  function FixedSize(flags: byte): nat {
    if IsLocal(flags) then 3 else 9
  }

  /** The size and block number of a value whose fixed part starts at an offset. */
  function ValueSize(data: seq<byte>, offset: nat, flags: byte): nat
    requires offset + FixedSize(flags) <= |data|
  {
    if IsLocal(flags) then U16At(data, offset) else U32At(data, offset + 4)
  }

  function ValueBlock(data: seq<byte>, offset: nat, flags: byte): nat
    requires offset + FixedSize(flags) <= |data|
  {
    if IsLocal(flags) then 0 else U32At(data, offset)
  }

  function NameSize(data: seq<byte>, offset: nat, flags: byte): byte
    requires offset + FixedSize(flags) <= |data|
  {
    data[offset + FixedSize(flags) - 1]
  }

  /** The name and value at an offset lie inside the block. */
  predicate Fits(data: seq<byte>, offset: nat, flags: byte) {
    offset + FixedSize(flags) <= |data| &&
    offset + FixedSize(flags) + NameSize(data, offset, flags) <= |data|
  }

  /** What an attribute means: the name follows the fixed part, a local value follows the name. */
  function DecodeValues(data: seq<byte>, offset: nat, flags: byte): Option<Attribute> {
    if !Fits(data, offset, flags) then None
    else
      var nameOffset := offset + FixedSize(flags);
      var valueOffset := nameOffset + NameSize(data, offset, flags);
      AssembleAt(data, offset, flags, nameOffset, valueOffset)
  }

  /** The same with the 16-bit offset that the code keeps, reduced after each step. */
  function DecodeValues16(data: seq<byte>, offset: nat, flags: byte): Option<Attribute> {
    if !Fits(data, offset, flags) then None
    else
      var nameOffset := U16(offset + FixedSize(flags));
      var nameSize := NameSize(data, offset, flags);
      ReducedOffsets(offset + FixedSize(flags), nameSize);
      var valueOffset := if nameSize > 0 then U16(nameOffset + nameSize) else nameOffset;
      AssembleAt(data, offset, flags, nameOffset, valueOffset)
  }

  lemma ReducedOffsets(offset: nat, size: nat)
    ensures U16(offset) <= offset
    ensures U16(U16(offset) + size) <= offset + size
  {
  }

  function AssembleAt(data: seq<byte>, offset: nat, flags: byte, nameOffset: nat, valueOffset: nat): Option<Attribute>
    requires Fits(data, offset, flags)
    requires nameOffset + NameSize(data, offset, flags) <= |data| && valueOffset <= |data|
  {
    var name := StoredName(flags, data[nameOffset..nameOffset + NameSize(data, offset, flags)]);
    var size := ValueSize(data, offset, flags);
    if name.None? then None
    else if !IsLocal(flags) then Some(Attribute(name.value, size, [], ValueBlock(data, offset, flags)))
    else if size > |data| - valueOffset then None
    else Some(Attribute(name.value, size, data[valueOffset..valueOffset + size], 0))
  }

  /** One entry of the table: values inside the block and behind the table, decoded. */
  function DecodeEntry(data: seq<byte>, tableEnd: nat, entryOffset: nat): Option<Attribute>
    requires entryOffset + 8 <= |data|
  {
    var offset, flags := U16At(data, entryOffset + 4), data[entryOffset + 6];
    if offset < tableEnd || offset >= |data| then None else DecodeValues16(data, offset, flags)
  }

  function DecodeTable(data: seq<byte>, tableEnd: nat, entryOffset: nat, n: nat): Option<seq<Attribute>>
    requires entryOffset + 8 * n <= |data|
    decreases n
  {
    if n == 0 then Some([])
    else
      match DecodeEntry(data, tableEnd, entryOffset)
      case None => None
      case Some(attribute) => Prepend([attribute], DecodeTable(data, tableEnd, entryOffset + 8, n - 1))
  }

  /** The offset and number of entries of the table. */
  function Table(io: IoHandle, data: seq<byte>): (table: Option<(nat, nat)>)
    ensures table.Some? ==> table.value.0 + 8 * table.value.1 <= |data|
  {
    var offset := BlockHeaderSize(io) + LeafHeaderSize(io);
    if |data| < offset then None
    else
      var n := U16At(data, BlockHeaderSize(io));
      if 8 * n > |data| - offset then None else Some((offset, n))
  }

  function LeafAttributes(io: IoHandle, data: seq<byte>): Option<seq<Attribute>> {
    match Table(io, data)
    case None => None
    case Some((offset, n)) => DecodeTable(data, offset + 8 * n, offset, n)
  }

  /** The decoder of one entry, in the code's own order of checks and with its 16-bit offset. */
  method ReadEntry(data: seq<byte>, tableEnd: nat, entryOffset: nat) returns (attribute: Option<Attribute>)
    requires entryOffset + 8 <= |data|
    ensures attribute == DecodeEntry(data, tableEnd, entryOffset)
  {
    hide U16At, U32At, AssembleAt, U16;
    var valuesOffset := U16At(data, entryOffset + 4);
    var flags := data[entryOffset + 6];
    if valuesOffset < tableEnd || valuesOffset >= |data| {
      return None;
    }
    var valuesDataSize := if IsLocal(flags) then 3 else 9;
    if valuesDataSize > |data| - valuesOffset {
      return None;
    }
    var nameSize: nat := if IsLocal(flags) then data[valuesOffset + 2] else data[valuesOffset + 8];
    if nameSize > |data| - valuesOffset - valuesDataSize {
      return None;
    }
    assert Fits(data, valuesOffset, flags);
    ReducedOffsets(valuesOffset + valuesDataSize, nameSize);
    var nameOffset := U16(valuesOffset + valuesDataSize);
    var valueOffset := if nameSize > 0 then U16(nameOffset + nameSize) else nameOffset;
    attribute := ReadValues(data, valuesOffset, flags, nameOffset, valueOffset);
  }

  /** Fills the values of one attribute from its fixed part, its name and its local value. */
  method ReadValues(data: seq<byte>, offset: nat, flags: byte, nameOffset: nat, valueOffset: nat)
    returns (attribute: Option<Attribute>)
    requires Fits(data, offset, flags)
    requires nameOffset + NameSize(data, offset, flags) <= |data| && valueOffset <= |data|
    ensures attribute == AssembleAt(data, offset, flags, nameOffset, valueOffset)
  {
    hide U16At, U32At, Prefix;
    var values := new Values();
    if IsLocal(flags) {
      values.valueDataSize := U16At(data, offset);
    } else {
      values.valueDataBlock := U32At(data, offset);
      values.valueDataSize := U32At(data, offset + 4);
    }
    var nameSize := NameSize(data, offset, flags);
    ghost var name := data[nameOffset..nameOffset + nameSize];
    assert |name| == nameSize <= 255;
    if nameSize > 0 {
      var named := values.SetName(data[nameOffset..nameOffset + nameSize], flags);
      if !named {
        return None;
      }
    }
    if IsLocal(flags) {
      var size := values.valueDataSize;
      if size > |data| - valueOffset {
        return None;
      }
      ghost var value := data[valueOffset..valueOffset + size];
      assert |value| == size < TWO_16;
      if size > 0 {
        var stored := values.SetValueData(data[valueOffset..valueOffset + size]);
        assert stored;
      }
      assert values.Value() == Attribute(values.name, size, value, 0);
    }
    attribute := Some(values.Value());
  }

  /** Appends the attributes of a leaf block; a failure behind the first check empties the array. */
  method ReadLeafValues(io: IoHandle, data: seq<byte>, attributes: CArray<Attribute>) returns (ok: bool)
    modifies attributes
    ensures ok == LeafAttributes(io, data).Some?
    ensures ok ==> attributes.entries == old(attributes.entries) + LeafAttributes(io, data).value
    ensures !ok ==> attributes.entries == if BlockHeaderSize(io) >= |data| then old(attributes.entries) else []
  {
    hide DecodeEntry, U16At, Prepend;
    var dataOffset := BlockHeaderSize(io);
    if dataOffset >= |data| {
      return false;
    }
    if |data| - dataOffset < LeafHeaderSize(io) {
      attributes.Empty();
      return false;
    }
    var numberOfEntries := U16At(data, dataOffset);
    dataOffset := dataOffset + LeafHeaderSize(io);
    var entriesDataSize := 8 * numberOfEntries;
    if entriesDataSize > |data| - dataOffset {
      attributes.Empty();
      return false;
    }
    var entriesDataEndOffset := dataOffset + entriesDataSize;
    ghost var all := DecodeTable(data, entriesDataEndOffset, dataOffset, numberOfEntries);
    ghost var found: seq<Attribute> := [];
    PrependNothing(all);
    for blockEntryIndex := 0 to numberOfEntries
      invariant dataOffset + 8 * (numberOfEntries - blockEntryIndex) == entriesDataEndOffset
      invariant attributes.entries == old(attributes.entries) + found
      invariant all ==
                Prepend(found, DecodeTable(data, entriesDataEndOffset, dataOffset, numberOfEntries - blockEntryIndex))
    {
      PrependNone(found);
      var attribute := ReadEntry(data, entriesDataEndOffset, dataOffset);
      dataOffset := dataOffset + 8;
      if attribute.None? {
        attributes.Empty();
        return false;
      }
      attributes.Append(attribute.value);
      PrependTwice(found, [attribute.value],
                   DecodeTable(data, entriesDataEndOffset, dataOffset, numberOfEntries - blockEntryIndex - 1));
      found := found + [attribute.value];
    }
    PrependEnd(found);
    ok := true;
  }

  // ---------- When the 16-bit offset is exact ----------

  /** In a block of less than 64 KiB the 16-bit offset never wraps. */
  lemma NoWrapBelow64K(data: seq<byte>, offset: nat, flags: byte)
    requires |data| < 0x1_0000
    ensures DecodeValues16(data, offset, flags) == DecodeValues(data, offset, flags)
  {
    hide AssembleAt;
  }

  /** In the largest block, 64 KiB, the 16-bit offset goes wrong exactly for a local value that is not
      empty although its name ends at the end of the block: it is then read from the start of the
      block instead of being refused. */
  lemma WrapExactly(data: seq<byte>, offset: nat, flags: byte)
    requires |data| == 0x1_0000
    ensures DecodeValues16(data, offset, flags) == DecodeValues(data, offset, flags) <==>
            !(&& Fits(data, offset, flags)
              && IsLocal(flags) && ValueSize(data, offset, flags) > 0
              && StoredName(flags, data[offset + 3..offset + 3 + NameSize(data, offset, flags)]).Some?
              && offset + 3 + NameSize(data, offset, flags) == 0x1_0000)
  {
    hide U16At, U32At, StoredName;
    if Fits(data, offset, flags) {
      var nameSize := NameSize(data, offset, flags);
      var nameOffset := offset + FixedSize(flags);
      if nameOffset + nameSize < 0x1_0000 {
        assert DecodeValues16(data, offset, flags) == DecodeValues(data, offset, flags);
      } else {
        var reduced := U16(nameOffset);
        assert data[reduced..reduced + nameSize] == data[nameOffset..nameOffset + nameSize] by {
          if nameSize == 0 {
            assert data[nameOffset..nameOffset] == data[reduced..reduced];
          }
        }
        assert U16(nameOffset + nameSize) == 0;
        assert data[0..0] == data[0x1_0000..0x1_0000];
      }
    }
  }

  /** A block of 64 KiB that ends with a local attribute "a" whose value of one byte would stand behind
      the block. */
  function WrappedBlock(): (data: seq<byte>)
    ensures |data| == 0x1_0000
  {
    seq(0xfffc, _ => 0x62) + [0, 1, 1, 0x61]
  }

  /** Its value should be refused, and is read from the first byte of the block. */
  lemma WrappedValueIsRead()
    ensures DecodeValues(WrappedBlock(), 0xfffc, 1) == None
    ensures DecodeValues16(WrappedBlock(), 0xfffc, 1) == Some(Attribute(USER_PREFIX + [0x61, 0], 1, [0x62], 0))
  {
    var data := WrappedBlock();
    var tail: seq<byte> := [0, 1, 1, 0x61];
    assert data[0xfffc..0xfffe] == tail[0..2] == ToBE(1, 2) by {
      assert ToBE(1, 2) == ToBE(0, 1) + [1];
      assert ToBE(0, 1) == [0];
    }
    U16AtWritten(data, 0xfffc, 1);
    assert data[0xfffe] == 1 && data[0xffff..0x1_0000] == [0x61] && data[0..1] == [0x62];
    assert StoredName(1, [0x61]) == Some(USER_PREFIX + [0x61, 0]) by {
      assert USER_PREFIX + [0x61] + [0] == USER_PREFIX + [0x61, 0];
    }
    hide U16At, U32At, WrappedBlock, StoredName;
  }

  /** The entry at an offset points behind the table and inside the block, at values that mean x. */
  ghost predicate Means(data: seq<byte>, tableEnd: nat, entryOffset: nat, x: Attribute)
    requires entryOffset + 8 <= |data|
  {
    var offset, flags := U16At(data, entryOffset + 4), data[entryOffset + 6];
    tableEnd <= offset < |data| && DecodeValues(data, offset, flags) == Some(x)
  }

  /** In a block of less than 64 KiB the table is accepted exactly when every entry means an attribute;
      the result is one attribute for each entry, in order. */
  lemma {:induction false} TableExactly(data: seq<byte>, tableEnd: nat, entryOffset: nat, n: nat, xs: seq<Attribute>)
    requires |data| < 0x1_0000 && entryOffset + 8 * n <= |data|
    ensures DecodeTable(data, tableEnd, entryOffset, n) == Some(xs) <==>
            |xs| == n && forall k: nat | k < n :: Means(data, tableEnd, entryOffset + 8 * k, xs[k])
    decreases n
  {
    hide DecodeValues, DecodeValues16, U16At;
    if n > 0 {
      var offset, flags := U16At(data, entryOffset + 4), data[entryOffset + 6];
      NoWrapBelow64K(data, offset, flags);
      if |xs| == n {
        TableExactly(data, tableEnd, entryOffset + 8, n - 1, xs[1..]);
        TableSplit(data, tableEnd, entryOffset, n, xs);
      }
      if DecodeTable(data, tableEnd, entryOffset, n) == Some(xs) {
        var rest := DecodeTable(data, tableEnd, entryOffset + 8, n - 1).value;
        TableExactly(data, tableEnd, entryOffset + 8, n - 1, rest);
        assert |xs| == 1 + |rest|;
        assert xs[1..] == rest;
      } else if |xs| == n && Means(data, tableEnd, entryOffset, xs[0]) {
        assert xs == [xs[0]] + xs[1..];
      }
    }
  }

  lemma TableSplit(data: seq<byte>, tableEnd: nat, entryOffset: nat, n: nat, xs: seq<Attribute>)
    requires n > 0 && |xs| == n && entryOffset + 8 * n <= |data|
    ensures (forall k: nat | k < n :: Means(data, tableEnd, entryOffset + 8 * k, xs[k])) <==>
            Means(data, tableEnd, entryOffset, xs[0]) &&
            (forall k: nat | k < n - 1 :: Means(data, tableEnd, entryOffset + 8 + 8 * k, xs[1..][k]))
  {
    hide Means;
    if forall k: nat | k < n :: Means(data, tableEnd, entryOffset + 8 * k, xs[k]) {
      assert Means(data, tableEnd, entryOffset + 8 * 0, xs[0]);
      forall k: nat | k < n - 1
        ensures Means(data, tableEnd, entryOffset + 8 + 8 * k, xs[1..][k])
      {
        assert Means(data, tableEnd, entryOffset + 8 * (k + 1), xs[k + 1]);
      }
    }
    if Means(data, tableEnd, entryOffset, xs[0]) &&
       forall k: nat | k < n - 1 :: Means(data, tableEnd, entryOffset + 8 + 8 * k, xs[1..][k]) {
      forall k: nat | k < n
        ensures Means(data, tableEnd, entryOffset + 8 * k, xs[k])
      {
        if k > 0 {
          assert Means(data, tableEnd, entryOffset + 8 + 8 * (k - 1), xs[1..][k - 1]);
        }
      }
    }
  }

  /** A leaf block of less than 64 KiB, as a whole. */
  lemma LeafExactly(io: IoHandle, data: seq<byte>, xs: seq<Attribute>)
    requires |data| < 0x1_0000
    ensures LeafAttributes(io, data) == Some(xs) <==>
            Table(io, data).Some? &&
            var (offset, n) := Table(io, data).value;
            |xs| == n && forall k: nat | k < n :: Means(data, offset + 8 * n, offset + 8 * k, xs[k])
  {
    hide DecodeTable;
    if Table(io, data).Some? {
      var (offset, n) := Table(io, data).value;
      TableExactly(data, offset + 8 * n, offset, n, xs);
    }
  }

  // ---------- Entries written in the format ----------

  /** The fields of a local attribute. */
  lemma LocalFields(data: seq<byte>, offset: nat, name: seq<byte>, value: seq<byte>)
    requires |name| < 256 && |value| < 0x1_0000
    requires var bytes := ToBE(|value|, 2) + [|name|] + name + value;
             offset + |bytes| <= |data| && data[offset..offset + |bytes|] == bytes
    ensures offset + 3 + |name| + |value| <= |data|
    ensures U16At(data, offset) == |value| && data[offset + 2] == |name|
    ensures data[offset + 3..offset + 3 + |name|] == name
    ensures data[offset + 3 + |name|..offset + 3 + |name| + |value|] == value
  {
    hide U16At, ToBE;
    var bytes := ToBE(|value|, 2) + [|name|] + name + value;
    var end := offset + |bytes|;
    SliceOfSlice(data, offset, end, 0, 2);
    assert bytes[0..2] == ToBE(|value|, 2);
    U16AtWritten(data, offset, |value|);
    assert data[offset + 2] == data[offset..end][2] == bytes[2];
    SliceOfSlice(data, offset, end, 3, |name|);
    assert bytes[3..3 + |name|] == name;
    SliceOfSlice(data, offset, end, 3 + |name|, |value|);
    assert bytes[3 + |name|..3 + |name| + |value|] == value;
  }

  /** Decoding inverts writing a local attribute anywhere in a block. */
  lemma WrittenLocalIsDecoded(data: seq<byte>, offset: nat, flags: byte, name: seq<byte>, value: seq<byte>)
    requires flags % 2 == 1 && |name| < 256 && |value| < 0x1_0000
    requires var bytes := ToBE(|value|, 2) + [|name|] + name + value;
             offset + |bytes| <= |data| && data[offset..offset + |bytes|] == bytes
    ensures DecodeValues(data, offset, flags) ==
            match FullName(flags, name)
            case None => None
            case Some(full) => Some(Attribute(full, |value|, value, 0))
  {
    hide DecodeValues, StoredName, FullName, U16At, ToBE;
    LocalFields(data, offset, name, value);
    LocalIsDecoded(data, offset, flags, name, value);
    StoredNameIsFullName(flags, name);
  }

  lemma LocalIsDecoded(data: seq<byte>, offset: nat, flags: byte, name: seq<byte>, value: seq<byte>)
    requires flags % 2 == 1 && offset + 3 + |name| + |value| <= |data|
    requires U16At(data, offset) == |value| && data[offset + 2] == |name|
    requires data[offset + 3..offset + 3 + |name|] == name
    requires data[offset + 3 + |name|..offset + 3 + |name| + |value|] == value
    ensures DecodeValues(data, offset, flags) ==
            match StoredName(flags, name)
            case None => None
            case Some(stored) => Some(Attribute(stored, |value|, value, 0))
  {
    hide StoredName, U16At, U32At;
  }

  /** The fields of a remote attribute. */
  lemma RemoteFields(data: seq<byte>, offset: nat, name: seq<byte>, block: nat, size: nat)
    requires |name| < 256 && block < 0x1_0000_0000 && size < 0x1_0000_0000
    requires var bytes := ToBE(block, 4) + ToBE(size, 4) + [|name|] + name;
             offset + |bytes| <= |data| && data[offset..offset + |bytes|] == bytes
    ensures offset + 9 + |name| <= |data|
    ensures U32At(data, offset) == block && U32At(data, offset + 4) == size && data[offset + 8] == |name|
    ensures data[offset + 9..offset + 9 + |name|] == name
  {
    hide U32At, ToBE;
    var bytes := ToBE(block, 4) + ToBE(size, 4) + [|name|] + name;
    var end := offset + |bytes|;
    SliceOfSlice(data, offset, end, 0, 4);
    assert bytes[0..4] == ToBE(block, 4);
    U32AtWritten(data, offset, block);
    SliceOfSlice(data, offset, end, 4, 4);
    assert bytes[4..8] == ToBE(size, 4);
    U32AtWritten(data, offset + 4, size);
    assert data[offset + 8] == data[offset..end][8] == bytes[8];
    SliceOfSlice(data, offset, end, 9, |name|);
    assert bytes[9..9 + |name|] == name;
  }

  /** Decoding inverts writing a remote attribute anywhere in a block. */
  lemma WrittenRemoteIsDecoded(data: seq<byte>, offset: nat, flags: byte, name: seq<byte>, block: nat, size: nat)
    requires flags % 2 == 0 && |name| < 256 && block < 0x1_0000_0000 && size < 0x1_0000_0000
    requires var bytes := ToBE(block, 4) + ToBE(size, 4) + [|name|] + name;
             offset + |bytes| <= |data| && data[offset..offset + |bytes|] == bytes
    ensures DecodeValues(data, offset, flags) ==
            match FullName(flags, name)
            case None => None
            case Some(full) => Some(Attribute(full, size, [], block))
  {
    hide DecodeValues, StoredName, FullName, U32At, ToBE;
    RemoteFields(data, offset, name, block, size);
    RemoteIsDecoded(data, offset, flags, name, block, size);
    StoredNameIsFullName(flags, name);
  }

  lemma RemoteIsDecoded(data: seq<byte>, offset: nat, flags: byte, name: seq<byte>, block: nat, size: nat)
    requires flags % 2 == 0 && offset + 9 + |name| <= |data|
    requires U32At(data, offset) == block && U32At(data, offset + 4) == size && data[offset + 8] == |name|
    requires data[offset + 9..offset + 9 + |name|] == name
    ensures DecodeValues(data, offset, flags) ==
            match StoredName(flags, name)
            case None => None
            case Some(stored) => Some(Attribute(stored, size, [], block))
  {
    hide StoredName, U16At, U32At;
  }
}
