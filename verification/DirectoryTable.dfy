/** Short-form directories: a header with entry counts and parent, then packed entries. */
module DirectoryTable {
  import opened Integers
  import opened Bytes
  import opened Collections
  import opened IoHandles
  import opened BlockDirectory

  datatype TableHeader = TableHeader(numberOfEntries: nat, inodeSize: nat, parent: nat) {
    function DataSize(): nat {
      2 + inodeSize
    }
  }

  /** The header, if exactly one of the two entry counts is used and the data holds the parent. */
  function ParseTableHeader(data: seq<byte>): (header: Option<TableHeader>)
    ensures header.Some? ==> header.value.inodeSize in {4, 8} && |data| >= header.value.DataSize()
  {
    if |data| < 6 || (data[0] != 0 && data[1] != 0) then None
    else if data[1] == 0 then Some(TableHeader(data[0], 4, U32At(data, 2)))
    else if |data| < 10 then None
    else Some(TableHeader(data[1], 8, U64At(data, 2)))
  }

  /** An inode number of 4 or 8 bytes. */
  function InodeAt(data: seq<byte>, offset: nat, inodeSize: nat): nat
    requires inodeSize in {4, 8} && offset + inodeSize <= |data|
  {
    if inodeSize == 4 then U32At(data, offset) else U64At(data, offset)
  }

  function ShortEntrySize(io: IoHandle, nameSize: nat, inodeSize: nat): nat {
    3 + nameSize + FileTypeSize(io) + inodeSize
  }

  /** The next n entries from an offset on. */
  function ParseEntries(io: IoHandle, data: seq<byte>, offset: nat, inodeSize: nat, n: nat): Option<seq<Entry>>
    requires inodeSize in {4, 8} && offset <= |data|
    decreases n
  {
    if n == 0 then Some([])
    else if |data| - offset < 1 || ShortEntrySize(io, data[offset], inodeSize) > |data| - offset then None
    else
      var nameSize := data[offset];
      var size := ShortEntrySize(io, nameSize, inodeSize);
      var entry := Entry(InodeAt(data, offset + size - inodeSize, inodeSize), data[offset + 3..offset + 3 + nameSize]);
      Prepend([entry], ParseEntries(io, data, offset + size, inodeSize, n - 1))
  }

  function ParseTable(io: IoHandle, data: seq<byte>): Option<seq<Entry>> {
    match ParseTableHeader(data)
    case None => None
    case Some(header) => ParseEntries(io, data, header.DataSize(), header.inodeSize, header.numberOfEntries)
  }

  /** The header that is read, in terms of the bytes: one count is zero; the other one decides the size
      of inode numbers, four bytes if both are zero; the parent follows. */
  lemma TableHeaderExactly(data: seq<byte>, header: TableHeader)
    ensures ParseTableHeader(data) == Some(header) <==>
            || (&& |data| >= 6 && data[1] == 0
                && header == TableHeader(data[0], 4, FromBE(data[2..6])))
            || (&& |data| >= 10 && data[0] == 0 && data[1] != 0
                && header == TableHeader(data[1], 8, FromBE(data[2..10])))
  {
  }

  class Table {
    var header: Option<TableHeader>

    constructor ()
      ensures header == None
    {
      header := None;
    }

    method ReadHeader(data: seq<byte>) returns (ok: bool)
      modifies this
      ensures ok == ParseTableHeader(data).Some?
      ensures header == if ok then ParseTableHeader(data) else old(header)
    {
      if |data| < 2 {
        return false;
      }
      var numberOf32bitEntries, numberOf64bitEntries := data[0], data[1];
      if numberOf32bitEntries != 0 && numberOf64bitEntries != 0 {
        return false;
      }
      var headerDataSize := if numberOf64bitEntries == 0 then 6 else 10;
      if |data| < headerDataSize {
        return false;
      }
      if numberOf64bitEntries == 0 {
        header := Some(TableHeader(numberOf32bitEntries, 4, U32At(data, 2)));
      } else {
        header := Some(TableHeader(numberOf64bitEntries, 8, U64At(data, 2)));
      }
      ok := true;
    }

    /** Appends the entries of a table; a failure empties the array. */
    method ReadData(io: IoHandle, data: seq<byte>, entries: CArray<Entry>) returns (ok: bool)
      modifies this, entries
      ensures var accepted := old(header) == None && |data| >= 2;
              && ok == (accepted && ParseTable(io, data).Some?)
              && (ok ==>
                    && entries.entries == old(entries.entries) + ParseTable(io, data).value
                    && header == ParseTableHeader(data))
              && (!ok && accepted ==> entries.entries == [] && header == None)
              && (!accepted ==> entries.entries == old(entries.entries) && header == old(header))
    {
      hide U32At, U64At, ParseEntries;
      if header != None {
        return false;
      }
      if |data| < 2 {
        return false;
      }
      var read := ReadHeader(data);
      if read {
        read := ReadEntries(io, data, header.value, entries);
      }
      if !read {
        header := None;
        entries.Empty();
        return false;
      }
      ok := true;
    }
  }

  /** The loop over the entries. */
  method ReadEntries(io: IoHandle, data: seq<byte>, header: TableHeader, entries: CArray<Entry>) returns (ok: bool)
    requires header.inodeSize in {4, 8} && |data| >= header.DataSize()
    modifies entries
    ensures var parsed := ParseEntries(io, data, header.DataSize(), header.inodeSize, header.numberOfEntries);
            && ok == parsed.Some?
            && (ok ==> entries.entries == old(entries.entries) + parsed.value)
  {
    hide U32At, U64At, Prepend, Geometry.HasFileType, ParseEntries, InodeAt;
    var inodeSize, n := header.inodeSize, header.numberOfEntries;
    var dataOffset: nat := if inodeSize == 4 then 6 else 10;
    ghost var all := ParseEntries(io, data, dataOffset, inodeSize, n);
    ghost var found: seq<Entry> := [];
    PrependNothing(all);
    for i := 0 to n
      invariant dataOffset <= |data|
      invariant entries.entries == old(entries.entries) + found
      invariant all == Prepend(found, ParseEntries(io, data, dataOffset, inodeSize, n - i))
    {
      PrependNone(found);
      ParseEntriesStep(io, data, dataOffset, inodeSize, n - i);
      if |data| - dataOffset < 1 {
        return false;
      }
      var nameSize: nat := data[dataOffset];
      var entryDataSize: nat := 3 + nameSize;
      if io.HasFileType() {
        entryDataSize := entryDataSize + 1;
      }
      entryDataSize := entryDataSize + inodeSize;
      if entryDataSize > |data| - dataOffset {
        return false;
      }
      ghost var entryOffset := dataOffset;
      dataOffset := dataOffset + 1;
      dataOffset := dataOffset + 2;
      var name := data[dataOffset..dataOffset + nameSize];
      dataOffset := dataOffset + nameSize;
      if io.HasFileType() {
        dataOffset := dataOffset + 1;
      }
      var inodeNumber: nat;
      if inodeSize == 4 {
        inodeNumber := U32At(data, dataOffset);
        dataOffset := dataOffset + 4;
      } else {
        inodeNumber := U64At(data, dataOffset);
        dataOffset := dataOffset + 8;
      }
      assert dataOffset == entryOffset + ShortEntrySize(io, nameSize, inodeSize);
      assert inodeNumber == InodeAt(data, dataOffset - inodeSize, inodeSize) by {
        InodeAtIs(data, dataOffset - inodeSize, inodeSize);
      }
      entries.Append(Entry(inodeNumber, name));
      PrependTwice(found, [Entry(inodeNumber, name)], ParseEntries(io, data, dataOffset, inodeSize, n - i - 1));
      found := found + [Entry(inodeNumber, name)];
    }
    NoEntriesLeft(io, data, dataOffset, inodeSize);
    PrependEnd(found);
    ok := true;
  }

  lemma ParseEntriesStep(io: IoHandle, data: seq<byte>, offset: nat, inodeSize: nat, n: nat)
    requires inodeSize in {4, 8} && offset <= |data| && n > 0
    ensures var short := |data| - offset < 1 || ShortEntrySize(io, data[offset], inodeSize) > |data| - offset;
            && (short ==> ParseEntries(io, data, offset, inodeSize, n) == None)
            && (!short ==> var nameSize := data[offset];
                           var next := offset + ShortEntrySize(io, nameSize, inodeSize);
                           ParseEntries(io, data, offset, inodeSize, n) ==
                           Prepend([Entry(InodeAt(data, next - inodeSize, inodeSize),
                             data[offset + 3..offset + 3 + nameSize])],
                                   ParseEntries(io, data, next, inodeSize, n - 1)))
  {
    hide InodeAt, Prepend;
  }

  lemma NoEntriesLeft(io: IoHandle, data: seq<byte>, offset: nat, inodeSize: nat)
    requires inodeSize in {4, 8} && offset <= |data|
    ensures ParseEntries(io, data, offset, inodeSize, 0) == Some([])
  {
  }

  lemma InodeAtIs(data: seq<byte>, offset: nat, inodeSize: nat)
    requires inodeSize in {4, 8} && offset + inodeSize <= |data|
    ensures InodeAt(data, offset, inodeSize) == if inodeSize == 4 then U32At(data, offset) else U64At(data, offset)
  {
  }
}
