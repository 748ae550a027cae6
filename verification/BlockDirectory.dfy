/** Directory blocks: a header, a tiling of used and unused slots, and an optional footer. */
module BlockDirectory {
  import opened Integers
  import opened Bytes
  import opened Collections
  import opened IoHandles

  const FREE_TAG: nat := 0xffff

  /** Inode numbers from here on start with the two bytes that mark an unused slot. */
  const FIRST_FREE_TAGGED_INODE: nat := 0xffff_0000_0000_0000

  const DOT: byte := 0x2e

  datatype Entry = Entry(inode: nat, name: seq<byte>)

  predicate IsDotName(name: seq<byte>) {
    name == [DOT] || name == [DOT, DOT]
  }

  // ---------- Header and footer ----------

  datatype Header = Header(formatVersion: nat, hasFooter: bool)

  const XD2B: seq<byte> := [0x58, 0x44, 0x32, 0x42]
  const XD2D: seq<byte> := [0x58, 0x44, 0x32, 0x44]
  const XDB3: seq<byte> := [0x58, 0x44, 0x42, 0x33]
  const XDD3: seq<byte> := [0x58, 0x44, 0x44, 0x33]

  function HeaderSize(formatVersion: nat): (size: nat)
    ensures size % 8 == 0 && size >= 16
  {
    if formatVersion == 3 then 64 else 16
  }

  function Signature(header: Header): (signature: seq<byte>)
    ensures |signature| == 4
  {
    if header.formatVersion == 3 then (if header.hasFooter then XDB3 else XDD3)
    else (if header.hasFooter then XD2B else XD2D)
  }

  method ReadHeader(data: seq<byte>) returns (header: Option<Header>)
    ensures header.Some? ==> && header.value.formatVersion in {2, 3}
                             && |data| >= HeaderSize(header.value.formatVersion)
                             && data[..4] == Signature(header.value)
    ensures header.None? ==>
              forall h: Header | h.formatVersion in {2, 3} && |data| >= HeaderSize(h.formatVersion) ::
                data[..4] != Signature(h)
  {
    if |data| < 4 {
      return None;
    }
    var formatVersion, hasFooter := 0, false;
    var headerDataSize := |data|;
    if data[..4] == XD2B {
      formatVersion, headerDataSize, hasFooter := 2, 16, true;
    } else if data[..4] == XD2D {
      formatVersion, headerDataSize := 2, 16;
    } else if data[..4] == XDB3 {
      formatVersion, headerDataSize, hasFooter := 3, 64, true;
    } else if data[..4] == XDD3 {
      formatVersion, headerDataSize := 3, 64;
    }
    if |data| < headerDataSize {
      return None;
    }
    if formatVersion != 2 && formatVersion != 3 {
      return None;
    }
    header := Some(Header(formatVersion, hasFooter));
  }

  /** The header that a block starts with. */
  function ParseHeader(data: seq<byte>): (header: Option<Header>)
    ensures header.Some? ==> header.value.formatVersion in {2, 3} && |data| >= HeaderSize(header.value.formatVersion)
  {
    if |data| < 16 then None
    else if data[..4] == XD2B then Some(Header(2, true))
    else if data[..4] == XD2D then Some(Header(2, false))
    else if |data| < 64 then None
    else if data[..4] == XDB3 then Some(Header(3, true))
    else if data[..4] == XDD3 then Some(Header(3, false))
    else None
  }

  lemma HeaderIsUnique(data: seq<byte>, h: Header)
    requires h.formatVersion in {2, 3} && |data| >= HeaderSize(h.formatVersion) && data[..4] == Signature(h)
    ensures ParseHeader(data) == Some(h)
  {
    assert XD2B[2] != XDB3[2] && XD2B[2] != XDD3[2] && XD2D[2] != XDB3[2] && XD2D[2] != XDD3[2];
    assert XD2B[3] != XD2D[3] && XDB3[2] != XDD3[2];
  }

  lemma ParsedHeaderMatches(data: seq<byte>)
    ensures ParseHeader(data).Some? ==> data[..4] == Signature(ParseHeader(data).value)
  {
  }

  /** The end of the entries: the end of the block, or the start of the hash values that precede
      the footer and that the footer counts. */
  function EntriesEnd(data: seq<byte>, hasFooter: bool): (end: Option<nat>)
    requires |data| >= 8
    ensures end.Some? ==> end.value <= |data|
  {
    if !hasFooter then Some(|data|)
    else
      var n := U32At(data, |data| - 8);
      if n > (|data| - 8) / 8 then None else Some(|data| - 8 - 8 * n)
  }

  // ---------- Slots ----------

  function FileTypeSize(io: IoHandle): nat {
    if io.HasFileType() then 1 else 0
  }

  /** The size of a used slot: inode number, name size, name, file type and tag, padded to 8. */
  function EntrySize(io: IoHandle, nameSize: nat): (size: nat)
    ensures size % 8 == 0 && size >= 16
    ensures 11 + nameSize + FileTypeSize(io) <= size < 11 + nameSize + FileTypeSize(io) + 8
  {
    (11 + nameSize + FileTypeSize(io) + 7) / 8 * 8
  }

  function ListEntry(e: Entry): seq<Entry> {
    if IsDotName(e.name) then [] else [e]
  }

  /** The entries of the slots between two offsets. */
  function ParseSlots(io: IoHandle, data: seq<byte>, offset: nat, end: nat): Option<seq<Entry>>
    requires end <= |data|
    decreases end - offset
  {
    if offset >= end then Some([])
    else if end - offset < 4 then None
    else if U16At(data, offset) == FREE_TAG then
      var size := U16At(data, offset + 2);
      if size < 4 then None else ParseSlots(io, data, offset + size, end)
    else if end - offset < 9 then None
    else
      var nameSize := data[offset + 8];
      var size := EntrySize(io, nameSize);
      if size > end - offset then None
      else Prepend(ListEntry(Entry(U64At(data, offset), data[offset + 9..offset + 9 + nameSize])),
                   ParseSlots(io, data, offset + size, end))
  }

  /** The entries of a block. */
  function Parse(io: IoHandle, data: seq<byte>): Option<seq<Entry>> {
    match ParseHeader(data)
    case None => None
    case Some(header) =>
      match EntriesEnd(data, header.hasFooter)
      case None => None
      case Some(end) => ParseSlots(io, data, HeaderSize(header.formatVersion), end)
  }

  class Block {
    var header: Option<Header>
    var footer: Option<nat>

    constructor ()
      ensures header == None && footer == None
    {
      header, footer := None, None;
    }

    /** Appends the entries of a block; a failure empties the array. */
    method ReadData(io: IoHandle, data: seq<byte>, entries: CArray<Entry>) returns (ok: bool)
      modifies this, entries
      ensures var accepted := old(header) == None && old(footer) == None && |data| >= 8;
              && ok == (accepted && Parse(io, data).Some?)
              && (ok ==> entries.entries == old(entries.entries) + Parse(io, data).value
                         && header == ParseHeader(data) && (footer.Some? <==> header.value.hasFooter))
              && (!ok && accepted ==> entries.entries == [] && header == None && footer == None)
              && (!accepted ==>
                    entries.entries == old(entries.entries) && header == old(header) && footer == old(footer))
    {
      hide ParseSlots, U32At, Signature;
      if header != None || footer != None {
        return false;
      }
      if |data| < 8 {
        return false;
      }
      header := ReadHeader(data);
      if header == None {
        assert ParseHeader(data).None? by {
          ParsedHeaderMatches(data);
        }
        entries.Empty();
        return false;
      }
      HeaderIsUnique(data, header.value);
      var entriesDataEndOffset := |data|;
      if header.value.hasFooter {
        var numberOfEntries := U32At(data, |data| - 8);
        footer := Some(numberOfEntries);
        if numberOfEntries > (|data| - 8) / 8 {
          header, footer := None, None;
          entries.Empty();
          return false;
        }
        var hashValuesDataSize := numberOfEntries * 8;
        entriesDataEndOffset := |data| - (8 + hashValuesDataSize);
      }
      var dataOffset := if header.value.formatVersion == 3 then 64 else 16;
      var read := ReadSlots(io, data, dataOffset, entriesDataEndOffset, entries);
      if !read {
        header, footer := None, None;
        entries.Empty();
        return false;
      }
      ok := true;
    }
  }

  /** The loop over the slots. */
  method ReadSlots(io: IoHandle, data: seq<byte>, start: nat, end: nat, entries: CArray<Entry>) returns (ok: bool)
    requires end <= |data|
    modifies entries
    ensures ok == ParseSlots(io, data, start, end).Some?
    ensures ok ==> entries.entries == old(entries.entries) + ParseSlots(io, data, start, end).value
  {
    hide IsDotName, ListEntry, U16At, U64At, EntrySize, Geometry.HasFileType, Prepend, ParseSlots;
    var dataOffset := start;
    ghost var found: seq<Entry> := [];
    PrependNothing(ParseSlots(io, data, start, end));
    while dataOffset < end
      invariant entries.entries == old(entries.entries) + found
      invariant ParseSlots(io, data, start, end) == Prepend(found, ParseSlots(io, data, dataOffset, end))
      decreases end - dataOffset
    {
      PrependNone(found);
      ParseSlotsStep(io, data, dataOffset, end);
      if end - dataOffset < 4 {
        return false;
      }
      var freeTag := U16At(data, dataOffset);
      if freeTag == FREE_TAG {
        var unusedSize := U16At(data, dataOffset + 2);
        if unusedSize < 4 {
          return false;
        }
        dataOffset := dataOffset + unusedSize;
        continue;
      }
      if end - dataOffset < 9 {
        return false;
      }
      var nameSize: nat := data[dataOffset + 8];
      var entryDataSize: nat := 9 + nameSize + 2;
      if io.HasFileType() {
        entryDataSize := entryDataSize + 1;
      }
      PaddedSize(io, nameSize);
      var alignmentPaddingSize := entryDataSize % 8;
      if alignmentPaddingSize != 0 {
        alignmentPaddingSize := 8 - alignmentPaddingSize;
        entryDataSize := entryDataSize + alignmentPaddingSize;
      }
      assert entryDataSize == EntrySize(io, nameSize);
      if entryDataSize < 6 || entryDataSize > end - dataOffset {
        return false;
      }
      ghost var slotOffset := dataOffset;
      var inodeNumber := U64At(data, dataOffset);
      dataOffset := dataOffset + 9;
      var entry: Option<Entry> := None;
      if nameSize == 1 && data[dataOffset] == DOT {
      } else if nameSize == 2 && data[dataOffset] == DOT && data[dataOffset + 1] == DOT {
      } else {
        entry := Some(Entry(inodeNumber, data[dataOffset..dataOffset + nameSize]));
      }
      ghost var name := data[dataOffset..dataOffset + nameSize];
      ListEntryIs(Entry(inodeNumber, name));
      dataOffset := dataOffset + nameSize;
      if io.HasFileType() {
        dataOffset := dataOffset + 1;
      }
      if alignmentPaddingSize > 0 {
        dataOffset := dataOffset + alignmentPaddingSize;
      }
      if entry.Some? {
        entries.Append(entry.value);
      }
      dataOffset := dataOffset + 2;
      assert dataOffset == slotOffset + entryDataSize;
      PrependTwice(found, ListEntry(Entry(inodeNumber, name)), ParseSlots(io, data, dataOffset, end));
      found := found + ListEntry(Entry(inodeNumber, name));
    }
    ParseSlotsDone(io, data, dataOffset, end);
    PrependEnd(found);
    ok := true;
  }

  /** One step of the reading: a failure, an unused slot, or a used slot. */
  lemma ParseSlotsStep(io: IoHandle, data: seq<byte>, offset: nat, end: nat)
    requires offset < end <= |data|
    ensures end - offset < 4 ==> ParseSlots(io, data, offset, end) == None
    ensures end - offset >= 4 && U16At(data, offset) == FREE_TAG ==>
              var size := U16At(data, offset + 2);
              ParseSlots(io, data, offset, end) == if size < 4 then None else ParseSlots(io, data, offset + size, end)
    ensures 4 <= end - offset < 9 && U16At(data, offset) != FREE_TAG ==> ParseSlots(io, data, offset, end) == None
    ensures end - offset >= 9 && U16At(data, offset) != FREE_TAG ==>
              var size := EntrySize(io, data[offset + 8]);
              ParseSlots(io, data, offset, end) ==
              if size > end - offset then None
              else Prepend(ListEntry(Entry(U64At(data, offset), data[offset + 9..offset + 9 + data[offset + 8]])),
                           ParseSlots(io, data, offset + size, end))
  {
    hide U16At, U64At, EntrySize, ListEntry, Prepend;
  }

  lemma ParseSlotsDone(io: IoHandle, data: seq<byte>, offset: nat, end: nat)
    requires offset >= end && end <= |data|
    ensures ParseSlots(io, data, offset, end) == Some([])
  {
  }

  /** The padding that the loop adds makes up the size that the format gives a slot. */
  lemma PaddedSize(io: IoHandle, nameSize: nat)
    ensures var raw := 9 + nameSize + 2 + (if io.HasFileType() then 1 else 0);
            EntrySize(io, nameSize) == if raw % 8 == 0 then raw else raw + (8 - raw % 8)
  {
  }

  lemma ListEntryIs(e: Entry)
    ensures ListEntry(e) == if || (|e.name| == 1 && e.name[0] == DOT)
                               || (|e.name| == 2 && e.name[0] == DOT && e.name[1] == DOT)
                            then [] else [e]
  {
  }
}
