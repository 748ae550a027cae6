/** Short-form directories written in the on-disk format, and their agreement with block form. */
module DirectoryTableFormat {
  import opened Integers
  import opened Bytes
  import opened Collections
  import opened IoHandles
  import opened BlockDirectory
  import opened DirectoryLayout
  import opened BlockDirectoryFormat
  import opened DirectoryTable

  lemma EntryIsAsLong(io: IoHandle, inodeSize: nat, e: ShortEntry)
    requires |e.entry.name| < 256
    ensures |FormatEntry(io, inodeSize, e)| == ShortEntrySize(io, |e.entry.name|, inodeSize)
  {
    hide ToBE;
    TypeByteAgrees(io, e.fileType);
  }

  /** The fields of one entry. */
  lemma EntryFields(io: IoHandle, inodeSize: nat, e: ShortEntry, data: seq<byte>, offset: nat)
    requires inodeSize in {4, 8} && e.entry.inode < InodeLimit(inodeSize) && |e.entry.name| < 256
    requires offset + |FormatEntry(io, inodeSize, e)| <= |data|
    requires data[offset..offset + |FormatEntry(io, inodeSize, e)|] == FormatEntry(io, inodeSize, e)
    ensures data[offset] == |e.entry.name|
    ensures data[offset + 3..offset + 3 + |e.entry.name|] == e.entry.name
    ensures InodeAt(data, offset + ShortEntrySize(io, |e.entry.name|, inodeSize) - inodeSize, inodeSize) ==
            e.entry.inode
  {
    var bytes := FormatEntry(io, inodeSize, e);
    var end := offset + |bytes|;
    EntryLayout(io, inodeSize, e);
    EntryIsAsLong(io, inodeSize, e);
    hide ToBE, FormatEntry, InodeAt, InodeLimit, FileTypeSize;
    assert data[offset] == data[offset..end][0];
    SliceOfSlice(data, offset, end, 3, |e.entry.name|);
    SliceOfSlice(data, offset, end, |bytes| - inodeSize, inodeSize);
    InodeAtWritten(data, end - inodeSize, inodeSize, e.entry.inode);
  }

  lemma InodeAtWritten(data: seq<byte>, offset: nat, inodeSize: nat, inode: nat)
    requires inodeSize in {4, 8} && inode < InodeLimit(inodeSize) && offset + inodeSize <= |data|
    requires data[offset..offset + inodeSize] == ToBE(inode, inodeSize)
    ensures InodeAt(data, offset, inodeSize) == inode
  {
    hide ToBE, U32At, U64At;
    if inodeSize == 4 {
      U32AtWritten(data, offset, inode);
    } else {
      U64AtWritten(data, offset, inode);
    }
  }

  lemma EntryLayout(io: IoHandle, inodeSize: nat, e: ShortEntry)
    requires inodeSize in {4, 8} && |e.entry.name| < 256
    ensures var bytes := FormatEntry(io, inodeSize, e);
            && bytes[0] == |e.entry.name|
            && bytes[3..3 + |e.entry.name|] == e.entry.name
            && bytes[|bytes| - inodeSize..|bytes|] == ToBE(e.entry.inode, inodeSize)
  {
    hide ToBE;
  }

  lemma {:induction false} ParseFormattedEntries(io: IoHandle, inodeSize: nat, entries: seq<ShortEntry>,
                                                 data: seq<byte>, offset: nat, end: nat)
    requires inodeSize in {4, 8} && ValidEntries(entries, inodeSize)
    requires offset <= end <= |data| && data[offset..end] == FormatEntries(io, inodeSize, entries)
    ensures ParseEntries(io, data, offset, inodeSize, |entries|) == Some(Entries(entries))
    decreases |entries|
  {
    hide FormatEntry, InodeAt, ParseEntries, ShortEntrySize;
    if entries == [] {
      NoEntriesLeft(io, data, offset, inodeSize);
    } else {
      var e := entries[0];
      var first, rest := FormatEntry(io, inodeSize, e), FormatEntries(io, inodeSize, entries[1..]);
      SplitAt(data, offset, end, first, rest);
      assert e in entries;
      EntryFields(io, inodeSize, e, data, offset);
      EntryIsAsLong(io, inodeSize, e);
      ParseFormattedEntries(io, inodeSize, entries[1..], data, offset + |first|, end);
      OneMoreEntry(io, data, offset, inodeSize, |entries| - 1, e.entry, Entries(entries[1..]));
    }
  }

  /** Parsing takes one entry from where it stands. */
  lemma OneMoreEntry(io: IoHandle, data: seq<byte>, offset: nat, inodeSize: nat, n: nat, e: Entry, rest: seq<Entry>)
    requires inodeSize in {4, 8} && offset + ShortEntrySize(io, |e.name|, inodeSize) <= |data|
    requires data[offset] == |e.name| && data[offset + 3..offset + 3 + |e.name|] == e.name
    requires InodeAt(data, offset + ShortEntrySize(io, |e.name|, inodeSize) - inodeSize, inodeSize) == e.inode
    requires ParseEntries(io, data, offset + ShortEntrySize(io, |e.name|, inodeSize), inodeSize, n) == Some(rest)
    ensures ParseEntries(io, data, offset, inodeSize, n + 1) == Some([e] + rest)
  {
    hide InodeAt;
  }

  /** A short-form directory in the on-disk format reads back as its entries. The parent comes back
      too, except for an empty directory with 8-byte numbers: its two counts are both zero, which
      means 4-byte numbers. */
  lemma ParseFormattedTable(io: IoHandle, inodeSize: nat, parent: nat, entries: seq<ShortEntry>)
    requires inodeSize in {4, 8} && |entries| < 256 && ValidEntries(entries, inodeSize)
    requires parent < InodeLimit(inodeSize)
    ensures var data := FormatTable(io, inodeSize, parent, entries);
            && ParseTable(io, data) == Some(Entries(entries))
            && (entries != [] || inodeSize == 4 ==>
              ParseTableHeader(data) == Some(TableHeader(|entries|, inodeSize, parent)))
            && (entries == [] && inodeSize == 8 ==> ParseTableHeader(data) == Some(TableHeader(0, 4, parent / TWO_32)))
  {
    hide ToBE, U32At, U64At, ParseEntries, ParseTableHeader, FormatTable, Entries, FormatEntries;
    var data := FormatTable(io, inodeSize, parent, entries);
    TableHeaderFields(io, inodeSize, parent, entries);
    if entries == [] {
      NoEntriesLeft(io, data, 2 + inodeSize, inodeSize);
      NoEntriesLeft(io, data, 6, 4);
      assert Entries(entries) == [];
    } else {
      ParseFormattedEntries(io, inodeSize, entries, data, 2 + inodeSize, |data|);
    }
  }

  lemma TableHeaderFields(io: IoHandle, inodeSize: nat, parent: nat, entries: seq<ShortEntry>)
    requires inodeSize in {4, 8} && |entries| < 256 && ValidEntries(entries, inodeSize)
    requires parent < InodeLimit(inodeSize)
    ensures var data := FormatTable(io, inodeSize, parent, entries);
            && |data| >= 2 + inodeSize
            && data[2 + inodeSize..|data|] == FormatEntries(io, inodeSize, entries)
            && (entries != [] || inodeSize == 4 ==>
              ParseTableHeader(data) == Some(TableHeader(|entries|, inodeSize, parent)))
            && (entries == [] && inodeSize == 8 ==> ParseTableHeader(data) == Some(TableHeader(0, 4, parent / TWO_32)))
  {
    hide ToBE, U32At, U64At, FormatEntries;
    var counts: seq<byte> := if inodeSize == 4 then [|entries|, 0] else [0, |entries|];
    var parentBytes, body := ToBE(parent, inodeSize), FormatEntries(io, inodeSize, entries);
    var data := counts + parentBytes + body;
    assert data == FormatTable(io, inodeSize, parent, entries);
    SliceMiddle(counts, parentBytes, body, 0, inodeSize);
    assert data[2 + inodeSize..|data|] == body;
    assert data[0] == counts[0] && data[1] == counts[1];
    if inodeSize == 4 {
      U32AtWritten(data, 2, parent);
    } else {
      U64AtWritten(data, 2, parent);
      HighHalfOfU64(parent);
      SliceMiddle(counts, parentBytes, body, 0, 4);
      assert parentBytes[0..4] == parentBytes[..4];
      U32AtWritten(data, 2, parent / TWO_32);
    }
  }

  // ---------- Accepted tables ----------

  /** The entries stand in the data, one after the other. */
  ghost predicate StandAt(io: IoHandle, inodeSize: nat, data: seq<byte>, offset: nat, entries: seq<ShortEntry>) {
    && ValidEntries(entries, inodeSize) && offset + |FormatEntries(io, inodeSize, entries)| <= |data|
    && data[offset..offset + |FormatEntries(io, inodeSize, entries)|] == FormatEntries(io, inodeSize, entries)
  }

  /** The entry that a successful step takes. */
  lemma EntryAt(io: IoHandle, inodeSize: nat, data: seq<byte>, offset: nat) returns (e: ShortEntry)
    requires inodeSize in {4, 8} && offset < |data| && offset + ShortEntrySize(io, data[offset], inodeSize) <= |data|
    ensures e.entry.inode < InodeLimit(inodeSize) && |e.entry.name| == data[offset] && e.tag < TWO_16
    ensures var next := offset + ShortEntrySize(io, data[offset], inodeSize);
            && e.entry == Entry(InodeAt(data, next - inodeSize, inodeSize), data[offset + 3..offset + 3 + data[offset]])
            && data[offset..next] == FormatEntry(io, inodeSize, e)
  {
    var nameEnd := offset + 3 + data[offset];
    var inodeStart := nameEnd + FileTypeSize(io);
    var inode := InodeAt(data, inodeStart, inodeSize);
    var fileType := if CarriesType(io) then data[nameEnd] else 0;
    TypeByteAgrees(io, fileType);
    e := ShortEntry(Entry(inode, data[offset + 3..nameEnd]), U16At(data, offset + 1), fileType);
    U16AtBytes(data, offset + 1);
    if inodeSize == 4 {
      U32AtBytes(data, inodeStart);
    } else {
      U64AtBytes(data, inodeStart);
    }
    hide ToBE, U16At, U32At, U64At, Geometry.HasFileType, CarriesType;
    assert [data[offset]] == data[offset..offset + 1];
    assert TypeBytes(io, fileType) == data[nameEnd..inodeStart];
    Join(data, offset, offset + 1, offset + 3);
    Join(data, offset, offset + 3, nameEnd);
    Join(data, offset, nameEnd, inodeStart);
    Join(data, offset, inodeStart, inodeStart + inodeSize);
  }

  /** The entries of an accepted table, as they stand in the data. */
  lemma {:induction false} ListedStand(io: IoHandle, inodeSize: nat, data: seq<byte>, offset: nat, n: nat)
    returns (entries: seq<ShortEntry>)
    requires inodeSize in {4, 8} && offset <= |data| && ParseEntries(io, data, offset, inodeSize, n).Some?
    ensures |entries| == n && StandAt(io, inodeSize, data, offset, entries)
    ensures ParseEntries(io, data, offset, inodeSize, n) == Some(Entries(entries))
    decreases n
  {
    hide FormatEntry, InodeAt, ShortEntrySize, InodeLimit, TypeBytes, U16At;
    if n == 0 {
      entries := [];
    } else {
      var next := offset + ShortEntrySize(io, data[offset], inodeSize);
      var e := EntryAt(io, inodeSize, data, offset);
      var more := ListedStand(io, inodeSize, data, next, n - 1);
      entries := [e] + more;
      assert entries[1..] == more;
      Join(data, offset, next, next + |FormatEntries(io, inodeSize, more)|);
    }
  }

  /** On arbitrary bytes, n entries are accepted exactly when n valid entries stand in the data, and they
      are listed as those. */
  lemma EntriesExactly(io: IoHandle, inodeSize: nat, data: seq<byte>, offset: nat, n: nat, es: seq<Entry>)
    requires inodeSize in {4, 8} && offset <= |data|
    ensures ParseEntries(io, data, offset, inodeSize, n) == Some(es) <==>
            exists entries :: StandAt(io, inodeSize, data, offset, entries) && |entries| == n && Entries(entries) == es
  {
    hide ParseEntries, FormatEntries, Entries, ValidEntries;
    if ParseEntries(io, data, offset, inodeSize, n).Some? {
      var entries := ListedStand(io, inodeSize, data, offset, n);
    }
    forall entries | StandAt(io, inodeSize, data, offset, entries) && |entries| == n
      ensures ParseEntries(io, data, offset, inodeSize, n) == Some(Entries(entries))
    {
      var end := offset + |FormatEntries(io, inodeSize, entries)|;
      ParseFormattedEntries(io, inodeSize, entries, data, offset, end);
    }
  }

  // ---------- Short form and block form of one directory ----------

  /** The inode size that a short-form directory uses. */
  function NeededInodeSize(parent: nat, entries: seq<Entry>): nat {
    if parent < TWO_32 && forall e | e in entries :: e.inode < TWO_32 then 4 else 8
  }

  /** The slots of a block-form directory: itself, its parent, then the entries. */
  function BlockSlots(io: IoHandle, self: nat, parent: nat, entries: seq<Entry>): seq<Slot> {
    [SlotOf(io, Entry(self, [0x2e])), SlotOf(io, Entry(parent, [0x2e, 0x2e]))] + EntrySlots(io, entries)
  }

  function EntrySlots(io: IoHandle, entries: seq<Entry>): seq<Slot> {
    if entries == [] then [] else [SlotOf(io, entries[0])] + EntrySlots(io, entries[1..])
  }

  function SlotOf(io: IoHandle, e: Entry): Slot {
    Used(e, 0, Zeros((8 - (11 + |e.name| + |TypeBytes(io, 0)|) % 8) % 8), 0)
  }

  function Undecorated(entries: seq<Entry>): seq<ShortEntry> {
    if entries == [] then [] else [ShortEntry(entries[0], 0, 0)] + Undecorated(entries[1..])
  }

  /** What a directory can hold besides itself and its parent. */
  ghost predicate ValidDirectory(entries: seq<Entry>) {
    |entries| < 256 &&
    forall e | e in entries :: e.inode < 0xffff_0000_0000_0000 && |e.name| < 256 && !IsDots(e.name)
  }

  lemma {:induction false} UndecoratedEntries(entries: seq<Entry>, inodeSize: nat)
    requires forall e | e in entries :: e.inode < InodeLimit(inodeSize) && |e.name| < 256
    ensures Entries(Undecorated(entries)) == entries && ValidEntries(Undecorated(entries), inodeSize)
  {
    if entries != [] {
      UndecoratedEntries(entries[1..], inodeSize);
      assert Undecorated(entries)[1..] == Undecorated(entries[1..]);
    }
  }

  lemma SlotOfIs(io: IoHandle, e: Entry)
    requires e.inode < 0xffff_0000_0000_0000 && |e.name| < 256
    ensures SlotOf(io, e).Valid(io) && SlotOf(io, e).Recognizable()
    ensures SlotOf(io, e).Listed() == if IsDots(e.name) then [] else [e]
  {
  }

  lemma {:induction false} EntrySlotsListing(io: IoHandle, entries: seq<Entry>)
    requires forall e | e in entries :: e.inode < 0xffff_0000_0000_0000 && |e.name| < 256 && !IsDots(e.name)
    ensures var slots := EntrySlots(io, entries);
            AllValid(io, slots) && AllRecognizable(slots) && Listing(slots) == entries
  {
    hide Slot.Valid, Slot.Recognizable, Slot.Listed, SlotOf;
    if entries != [] {
      SlotOfIs(io, entries[0]);
      EntrySlotsListing(io, entries[1..]);
      assert EntrySlots(io, entries)[1..] == EntrySlots(io, entries[1..]);
    }
  }

  lemma BlockSlotsListing(io: IoHandle, self: nat, parent: nat, entries: seq<Entry>)
    requires ValidDirectory(entries) && self < 0xffff_0000_0000_0000 && parent < 0xffff_0000_0000_0000
    ensures var slots := BlockSlots(io, self, parent, entries);
            AllValid(io, slots) && AllRecognizable(slots) && Listing(slots) == entries
  {
    hide Slot.Valid, Slot.Recognizable, Slot.Listed, SlotOf, Listing, EntrySlots;
    SlotOfIs(io, Entry(parent, [0x2e, 0x2e]));
    SlotOfIs(io, Entry(self, [0x2e]));
    EntrySlotsListing(io, entries);
    var rest := EntrySlots(io, entries);
    var parentSlot, selfSlot := SlotOf(io, Entry(parent, [0x2e, 0x2e])), SlotOf(io, Entry(self, [0x2e]));
    ListingOfFirst(parentSlot, rest);
    ListingOfFirst(selfSlot, [parentSlot] + rest);
    assert BlockSlots(io, self, parent, entries) == [selfSlot] + ([parentSlot] + rest);
  }

  /** A directory written in short form, with 4-byte inode numbers whenever they all fit, and in
      block form, under any header and trailer, is listed the same. */
  lemma ShortFormAgreesWithBlockForm(io: IoHandle, self: nat, parent: nat, entries: seq<Entry>,
                                     header: Header, headerRest: seq<byte>,
                                     trailer: seq<byte>, hashes: seq<byte>, unusedCount: seq<byte>)
    requires ValidDirectory(entries) && self < 0xffff_0000_0000_0000 && parent < 0xffff_0000_0000_0000
    requires header.formatVersion in {2, 3} && |headerRest| == HeaderBytes(header.formatVersion) - 4
    requires IsTrailer(trailer, header, hashes, unusedCount)
    ensures |Undecorated(entries)| < 256 && ValidEntries(Undecorated(entries), NeededInodeSize(parent, entries))
    ensures AllValid(io, BlockSlots(io, self, parent, entries))
    ensures ParseTable(io, FormatTable(io, NeededInodeSize(parent, entries), parent, Undecorated(entries))) ==
            Some(entries)
    ensures Parse(io, FormatBlock(io, header, headerRest, BlockSlots(io, self, parent, entries), trailer)) ==
            Some(entries)
  {
    var inodeSize := NeededInodeSize(parent, entries);
    hide ParseTable, Parse, FormatTable, FormatBlock, IsTrailer, BlockSlots, Undecorated, IsDots;
    UndecoratedEntries(entries, inodeSize);
    ParseFormattedTable(io, inodeSize, parent, Undecorated(entries));
    BlockSlotsListing(io, self, parent, entries);
    ParseFormattedBlock(io, header, headerRest, BlockSlots(io, self, parent, entries), trailer, hashes, unusedCount);
  }
}
