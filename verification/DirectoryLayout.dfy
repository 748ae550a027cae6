/**
 The on-disk layout of directories, spelled out byte by byte. It names nothing of the readers but the
 types of what they yield.
 */
module DirectoryLayout {
  import opened Integers
  import opened Bytes
  import opened IoHandles
  import BlockDirectory

  /** Entries carry a byte with the type of their file on every volume of version 5, and on any other one
      with bit 9 of the secondary feature flags. */
  predicate CarriesType(io: IoHandle) {
    io.formatVersion == 5 || io.secondaryFeatureFlags % 0x400 >= 0x200
  }

  function TypeBytes(io: IoHandle, fileType: byte): seq<byte> {
    if CarriesType(io) then [fileType] else []
  }

  /** The flags are 0x400 times something, plus bit 9, plus less than that. */
  lemma CarriesTypeExactly(io: IoHandle, upper: nat, bit: nat, lower: nat)
    requires io.secondaryFeatureFlags == upper * 0x400 + bit * 0x200 + lower && bit <= 1 && lower < 0x200
    ensures CarriesType(io) <==> io.formatVersion == 5 || bit == 1
  {
  }

  // ---------- Block directories ----------

  /** What a region of entries is tiled with. */
  datatype Slot =
    | Used(entry: BlockDirectory.Entry, fileType: byte, padding: seq<byte>, tag: nat)
    | Unused(content: seq<byte>)
  {
    /** The fields fit, and the padding completes a used slot to a multiple of eight bytes. */
    predicate Valid(io: IoHandle) {
      match this
      case Used(entry, fileType, padding, tag) =>
        && entry.inode < 0x1_0000_0000_0000_0000 && |entry.name| < 256 && tag < 0x1_0000
        && |padding| < 8 && (8 + 1 + |entry.name| + |TypeBytes(io, fileType)| + |padding| + 2) % 8 == 0
      case Unused(content) => 4 + |content| < 0x1_0000
    }

    /** The inode number of a used slot does not start with the two bytes that mark an unused one. */
    predicate Recognizable() {
      Used? ==> entry.inode < 0xffff_0000_0000_0000
    }

    /** A used slot: inode number, size of the name, name, type, padding and tag. An unused one: the two
        bytes that mark it, its size and anything. */
    function Format(io: IoHandle): (bytes: seq<byte>)
      requires Valid(io)
      ensures |bytes| >= 4
    {
      match this
      case Used(entry, fileType, padding, tag) =>
        ToBE(entry.inode, 8) + [|entry.name|] + entry.name + TypeBytes(io, fileType) + padding + ToBE(tag, 2)
      case Unused(content) => [0xff, 0xff] + ToBE(4 + |content|, 2) + content
    }

    /** A listing shows the entries of used slots, apart from the directory itself and its parent. */
    function Listed(): seq<BlockDirectory.Entry> {
      if Used? && !IsDots(entry.name) then [entry] else []
    }
  }

  /** The names . and .. */
  predicate IsDots(name: seq<byte>) {
    name == [0x2e] || name == [0x2e, 0x2e]
  }

  ghost predicate AllValid(io: IoHandle, slots: seq<Slot>) {
    forall slot | slot in slots :: slot.Valid(io)
  }

  ghost predicate AllRecognizable(slots: seq<Slot>) {
    forall slot | slot in slots :: slot.Recognizable()
  }

  function FormatSlots(io: IoHandle, slots: seq<Slot>): seq<byte>
    requires AllValid(io, slots)
  {
    if slots == [] then [] else slots[0].Format(io) + FormatSlots(io, slots[1..])
  }

  function Listing(slots: seq<Slot>): seq<BlockDirectory.Entry> {
    if slots == [] then [] else slots[0].Listed() + Listing(slots[1..])
  }

  /** XDB3 or XDD3 in version 3, XD2B or XD2D in version 2; the first of each has a footer. */
  function Magic(header: BlockDirectory.Header): (magic: seq<byte>)
    ensures |magic| == 4
  {
    if header.formatVersion == 3 then [0x58, 0x44, if header.hasFooter then 0x42 else 0x44, 0x33]
    else [0x58, 0x44, 0x32, if header.hasFooter then 0x42 else 0x44]
  }

  function HeaderBytes(formatVersion: nat): (size: nat)
    ensures size >= 16
  {
    if formatVersion == 3 then 64 else 16
  }

  /** What follows the entries of a block: nothing, or hash values, their number and one more count. */
  ghost predicate IsTrailer(trailer: seq<byte>, header: BlockDirectory.Header, hashes: seq<byte>,
                            unusedCount: seq<byte>) {
    if header.hasFooter then
      && |unusedCount| == 4 && |hashes| % 8 == 0 && |hashes| / 8 < 0x1_0000_0000
      && trailer == hashes + ToBE(|hashes| / 8, 4) + unusedCount
    else trailer == []
  }

  /** A directory block: header, slots, and what follows them. */
  function FormatBlock(io: IoHandle, header: BlockDirectory.Header, headerRest: seq<byte>, slots: seq<Slot>,
                       trailer: seq<byte>): seq<byte>
    requires AllValid(io, slots)
  {
    Magic(header) + headerRest + FormatSlots(io, slots) + trailer
  }

  // ---------- Short-form directories ----------

  /** An entry with the tag and file type that a listing does not show. */
  datatype ShortEntry = ShortEntry(entry: BlockDirectory.Entry, tag: nat, fileType: byte)

  function InodeLimit(inodeSize: nat): int {
    if inodeSize == 4 then 0x1_0000_0000 else 0x1_0000_0000_0000_0000
  }

  ghost predicate ValidEntries(entries: seq<ShortEntry>, inodeSize: nat) {
    forall e | e in entries :: e.entry.inode < InodeLimit(inodeSize) && |e.entry.name| < 256 && e.tag < 0x1_0000
  }

  /** Size of the name, tag, name, type and inode number. */
  function FormatEntry(io: IoHandle, inodeSize: nat, e: ShortEntry): seq<byte>
    requires |e.entry.name| < 256
  {
    [|e.entry.name|] + ToBE(e.tag, 2) + e.entry.name + TypeBytes(io, e.fileType) + ToBE(e.entry.inode, inodeSize)
  }

  function FormatEntries(io: IoHandle, inodeSize: nat, entries: seq<ShortEntry>): seq<byte>
    requires ValidEntries(entries, inodeSize)
  {
    if entries == [] then [] else FormatEntry(io, inodeSize, entries[0]) + FormatEntries(io, inodeSize, entries[1..])
  }

  function Entries(entries: seq<ShortEntry>): (es: seq<BlockDirectory.Entry>)
    ensures |es| == |entries|
  {
    if entries == [] then [] else [entries[0].entry] + Entries(entries[1..])
  }

  /** The number of entries, in the count that fits the size of inode numbers, the parent, the entries. */
  function FormatTable(io: IoHandle, inodeSize: nat, parent: nat, entries: seq<ShortEntry>): seq<byte>
    requires |entries| < 256 && ValidEntries(entries, inodeSize)
  {
    (if inodeSize == 4 then [|entries|, 0] else [0, |entries|]) + ToBE(parent, inodeSize)
      + FormatEntries(io, inodeSize, entries)
  }
}
