/** Directory blocks written in the on-disk format, and what reading them back gives. */
module BlockDirectoryFormat {
  import opened Integers
  import opened Bytes
  import opened Collections
  import opened IoHandles
  import opened BlockDirectory
  import opened DirectoryLayout

  // ---------- The layout is what the reader expects ----------

  lemma TypeByteAgrees(io: IoHandle, fileType: byte)
    ensures io.HasFileType() <==> CarriesType(io)
    ensures |TypeBytes(io, fileType)| == FileTypeSize(io)
  {
  }

  /** The padding that completes the fields to a multiple of eight is the one that the reader adds. */
  lemma SlotSize(io: IoHandle, slot: Slot)
    requires slot.Valid(io)
    ensures |slot.Format(io)| == if slot.Used? then EntrySize(io, |slot.entry.name|) else 4 + |slot.content|
  {
    hide ToBE;
    if slot.Used? {
      TypeByteAgrees(io, slot.fileType);
    }
  }

  lemma HeadersAgree(header: Header)
    requires header.formatVersion in {2, 3}
    ensures Magic(header) == Signature(header) && HeaderBytes(header.formatVersion) == HeaderSize(header.formatVersion)
  {
  }

  lemma ListedIsListed(slot: Slot)
    ensures slot.Listed() == if slot.Used? then ListEntry(slot.entry) else []
  {
  }

  lemma ListingOfFirst(slot: Slot, slots: seq<Slot>)
    ensures Listing([slot] + slots) == slot.Listed() + Listing(slots)
  {
    assert ([slot] + slots)[1..] == slots;
  }

  // ---------- One slot ----------

  /** The fields of a used slot, read at its offset. */
  lemma UsedFields(io: IoHandle, slot: Slot, pre: seq<byte>, post: seq<byte>)
    requires slot.Used? && slot.Valid(io)
    ensures var data := pre + slot.Format(io) + post;
            && U64At(data, |pre|) == slot.entry.inode
            && U16At(data, |pre|) == slot.entry.inode / 0x1_0000_0000_0000
            && data[|pre| + 8] == |slot.entry.name|
            && data[|pre| + 9..|pre| + 9 + |slot.entry.name|] == slot.entry.name
  {
    var bytes := slot.Format(io);
    var data := pre + bytes + post;
    var inode, name := slot.entry.inode, slot.entry.name;
    UsedPrefix(io, slot);
    hide Slot.Format, ToBE;
    SliceMiddle(pre, bytes, post, 0, 8);
    U64AtWritten(data, |pre|, inode);
    SliceMiddle(pre, bytes, post, 0, 2);
    assert bytes[0..2] == ToBE(inode, 8)[..2];
    TopOfU64(inode);
    U16AtWritten(data, |pre|, inode / 0x1_0000_0000_0000);
    SliceMiddle(pre, bytes, post, 9, |name|);
    assert data[|pre| + 8] == bytes[8];
  }

  lemma UsedPrefix(io: IoHandle, slot: Slot)
    requires slot.Used? && slot.Valid(io)
    ensures var bytes := slot.Format(io);
            && bytes[0..8] == ToBE(slot.entry.inode, 8)
            && bytes[8] == |slot.entry.name|
            && bytes[9..9 + |slot.entry.name|] == slot.entry.name
  {
  }

  lemma FreeTagBytes()
    ensures ToBE(FREE_TAG, 2) == [0xff, 0xff]
  {
    assert ToBE(0xff, 1) == ToBE(0, 0) + [0xff];
  }

  lemma UnusedFields(io: IoHandle, slot: Slot, pre: seq<byte>, post: seq<byte>)
    requires slot.Unused? && slot.Valid(io)
    ensures var data := pre + slot.Format(io) + post;
            && U16At(data, |pre|) == FREE_TAG
            && U16At(data, |pre| + 2) == 4 + |slot.content|
  {
    var bytes := slot.Format(io);
    var data := pre + bytes + post;
    assert bytes[0..2] == ToBE(FREE_TAG, 2) by {
      FreeTagBytes();
    }
    assert bytes[2..4] == ToBE(4 + |slot.content|, 2);
    hide Slot.Format, ToBE;
    SliceMiddle(pre, bytes, post, 0, 2);
    SliceMiddle(pre, bytes, post, 2, 2);
    U16AtWritten(data, |pre|, FREE_TAG);
    U16AtWritten(data, |pre| + 2, 4 + |slot.content|);
  }

  /** A used slot is taken for an unused one exactly when the top 16 bits of its inode number are
      all ones. */
  lemma UsedIsTakenForUnusedExactly(io: IoHandle, slot: Slot, pre: seq<byte>, post: seq<byte>)
    requires slot.Used? && slot.Valid(io)
    ensures U16At(pre + slot.Format(io) + post, |pre|) == FREE_TAG <==> !slot.Recognizable()
  {
    UsedFields(io, slot, pre, post);
  }

  /** A slot at the current offset contributes its listed entries. */
  lemma ParseOneSlot(io: IoHandle, slot: Slot, pre: seq<byte>, post: seq<byte>, end: nat)
    requires slot.Valid(io) && slot.Recognizable()
    requires |pre| + |slot.Format(io)| <= end <= |pre + slot.Format(io) + post|
    ensures var data := pre + slot.Format(io) + post;
            ParseSlots(io, data, |pre|, end) ==
            Prepend(slot.Listed(), ParseSlots(io, data, |pre| + |slot.Format(io)|, end))
  {
    hide U16At, U64At, Slot.Format, EntrySize, ListEntry, Slot.Listed;
    SlotSize(io, slot);
    ListedIsListed(slot);
    var data := pre + slot.Format(io) + post;
    if slot.Used? {
      UsedFields(io, slot, pre, post);
    } else {
      UnusedFields(io, slot, pre, post);
      PrependNothing(ParseSlots(io, data, |pre| + |slot.Format(io)|, end));
    }
  }

  // ---------- Whole blocks ----------

  lemma ParseOneSlotAt(io: IoHandle, slot: Slot, data: seq<byte>, offset: nat, end: nat)
    requires slot.Valid(io) && slot.Recognizable()
    requires offset + |slot.Format(io)| <= end <= |data|
    requires data[offset..offset + |slot.Format(io)|] == slot.Format(io)
    ensures ParseSlots(io, data, offset, end) ==
            Prepend(slot.Listed(), ParseSlots(io, data, offset + |slot.Format(io)|, end))
  {
    hide ParseSlots, Slot.Format, Slot.Valid, Slot.Recognizable, Prepend;
    var bytes := slot.Format(io);
    assert data == data[..offset] + bytes + data[offset + |bytes|..];
    ParseOneSlot(io, slot, data[..offset], data[offset + |bytes|..], end);
  }

  /** Reading any tiling of recognizable slots gives exactly the listed entries, in order. */
  lemma {:induction false} ParseFormattedSlots(io: IoHandle, slots: seq<Slot>, data: seq<byte>, offset: nat, end: nat)
    requires AllValid(io, slots) && AllRecognizable(slots)
    requires offset <= end <= |data| && data[offset..end] == FormatSlots(io, slots)
    ensures ParseSlots(io, data, offset, end) == Some(Listing(slots))
    decreases |slots|
  {
    hide ParseSlots, Slot.Format, Slot.Valid, Slot.Recognizable;
    ParseSlotsDone(io, data, end, end);
    if slots != [] {
      var first, rest := slots[0].Format(io), FormatSlots(io, slots[1..]);
      SplitAt(data, offset, end, first, rest);
      ParseOneSlotAt(io, slots[0], data, offset, end);
      ParseFormattedSlots(io, slots[1..], data, offset + |first|, end);
    }
  }

  /** What is not taken for an unused slot has an inode number that does not start with the free tag. */
  lemma UntaggedInode(data: seq<byte>, offset: nat)
    requires offset + 8 <= |data| && U16At(data, offset) != FREE_TAG
    ensures U64At(data, offset) < FIRST_FREE_TAGGED_INODE
  {
    var inode := U64At(data, offset);
    var field := data[offset..offset + 8];
    ToFromBE(field);
    TopOfU64(inode);
    assert data[offset..offset + 2] == field[..2];
    hide U16At, U64At;
    U16AtWritten(data, offset, inode / 0x1_0000_0000_0000);
  }

  /** On arbitrary bytes, no listed entry has an inode number that starts with the free tag. */
  lemma {:induction false} ListedInodes(io: IoHandle, data: seq<byte>, offset: nat, end: nat)
    requires end <= |data| && ParseSlots(io, data, offset, end).Some?
    ensures forall e | e in ParseSlots(io, data, offset, end).value :: e.inode < 0xffff_0000_0000_0000
    decreases end - offset
  {
    hide ParseSlots, U16At, U64At, EntrySize, IsDotName;
    if offset >= end {
      ParseSlotsDone(io, data, offset, end);
    } else {
      ParseSlotsStep(io, data, offset, end);
      if U16At(data, offset) == FREE_TAG {
        ListedInodes(io, data, offset + U16At(data, offset + 2), end);
      } else {
        UntaggedInode(data, offset);
        ListedInodes(io, data, offset + EntrySize(io, data[offset + 8]), end);
      }
    }
  }

  /** The entries `.` and `..` have inode numbers that do not start with the free tag. */
  ghost predicate DotsRecognizable(slots: seq<Slot>) {
    forall slot | slot in slots && slot.Used? && IsDots(slot.entry.name) :: slot.Recognizable()
  }

  lemma {:induction false} ListingHolds(slots: seq<Slot>, slot: Slot)
    requires slot in slots && slot.Used? && !IsDots(slot.entry.name)
    ensures slot.entry in Listing(slots)
    decreases |slots|
  {
    if slot != slots[0] {
      ListingHolds(slots[1..], slot);
    }
  }

  /** Any tiling of slots is read as its listed entries exactly when no entry has an inode number that
      starts with the free tag. */
  lemma SlotsAreListedExactly(io: IoHandle, slots: seq<Slot>, data: seq<byte>, offset: nat, end: nat)
    requires AllValid(io, slots) && DotsRecognizable(slots)
    requires offset <= end <= |data| && data[offset..end] == FormatSlots(io, slots)
    ensures ParseSlots(io, data, offset, end) == Some(Listing(slots)) <==> AllRecognizable(slots)
  {
    hide ParseSlots, FormatSlots, Listing, Slot.Valid;
    if AllRecognizable(slots) {
      ParseFormattedSlots(io, slots, data, offset, end);
    } else if ParseSlots(io, data, offset, end) == Some(Listing(slots)) {
      var slot :| slot in slots && !slot.Recognizable();
      ListingHolds(slots, slot);
      ListedInodes(io, data, offset, end);
      assert false;
    }
  }

  lemma SplitAt<T>(data: seq<T>, offset: nat, end: nat, first: seq<T>, rest: seq<T>)
    requires offset <= end <= |data| && data[offset..end] == first + rest
    ensures offset + |first| <= end
    ensures data[offset..offset + |first|] == first
    ensures data[offset + |first|..end] == rest
  {
    var whole := data[offset..end];
    assert whole[..|first|] == first && whole[|first|..] == rest;
    SliceOfSlice(data, offset, end, 0, |first|);
    SliceOfSlice(data, offset, end, |first|, |rest|);
  }

  /** Reading a block is reading its slots. */
  lemma BlockIsItsSlots(io: IoHandle, header: Header, headerRest: seq<byte>, slots: seq<Slot>,
                        trailer: seq<byte>, hashes: seq<byte>, unusedCount: seq<byte>)
    requires header.formatVersion in {2, 3} && |headerRest| == HeaderBytes(header.formatVersion) - 4
    requires AllValid(io, slots) && IsTrailer(trailer, header, hashes, unusedCount)
    ensures var data := FormatBlock(io, header, headerRest, slots, trailer);
            var start := HeaderBytes(header.formatVersion);
            var end := start + |FormatSlots(io, slots)|;
            && end <= |data| && data[start..end] == FormatSlots(io, slots)
            && Parse(io, data) == ParseSlots(io, data, start, end)
  {
    hide Magic, Signature, FormatSlots, ParseSlots, ToBE, IsTrailer, EntriesEnd, HeaderBytes, HeaderSize, ParseHeader;
    HeadersAgree(header);
    var pre, body := Magic(header) + headerRest, FormatSlots(io, slots);
    var data := pre + body + trailer;
    assert data[..4] == Signature(header);
    HeaderIsUnique(data, header);
    EndOfEntries(pre + body, trailer, header, hashes, unusedCount);
    SliceMiddle(pre, body, trailer, 0, |body|);
  }

  /** A directory block in the on-disk format, for both versions, with or without a footer, reads
      back as its listed entries. */
  lemma ParseFormattedBlock(io: IoHandle, header: Header, headerRest: seq<byte>, slots: seq<Slot>,
                            trailer: seq<byte>, hashes: seq<byte>, unusedCount: seq<byte>)
    requires header.formatVersion in {2, 3} && |headerRest| == HeaderBytes(header.formatVersion) - 4
    requires AllValid(io, slots) && AllRecognizable(slots)
    requires IsTrailer(trailer, header, hashes, unusedCount)
    ensures Parse(io, FormatBlock(io, header, headerRest, slots, trailer)) == Some(Listing(slots))
  {
    hide FormatBlock, FormatSlots, ParseSlots, IsTrailer, HeaderBytes, Parse;
    var start := HeaderBytes(header.formatVersion);
    BlockIsItsSlots(io, header, headerRest, slots, trailer, hashes, unusedCount);
    var data := FormatBlock(io, header, headerRest, slots, trailer);
    ParseFormattedSlots(io, slots, data, start, start + |FormatSlots(io, slots)|);
  }

  /** It does so exactly when no entry has an inode number that starts with the free tag. */
  lemma BlockIsListedExactly(io: IoHandle, header: Header, headerRest: seq<byte>, slots: seq<Slot>,
                             trailer: seq<byte>, hashes: seq<byte>, unusedCount: seq<byte>)
    requires header.formatVersion in {2, 3} && |headerRest| == HeaderBytes(header.formatVersion) - 4
    requires AllValid(io, slots) && DotsRecognizable(slots)
    requires IsTrailer(trailer, header, hashes, unusedCount)
    ensures Parse(io, FormatBlock(io, header, headerRest, slots, trailer)) == Some(Listing(slots)) <==>
            AllRecognizable(slots)
  {
    hide FormatBlock, FormatSlots, ParseSlots, IsTrailer, HeaderBytes, Parse, DotsRecognizable, AllRecognizable,
         Listing;
    var start := HeaderBytes(header.formatVersion);
    BlockIsItsSlots(io, header, headerRest, slots, trailer, hashes, unusedCount);
    var data := FormatBlock(io, header, headerRest, slots, trailer);
    SlotsAreListedExactly(io, slots, data, start, start + |FormatSlots(io, slots)|);
  }

  /** The footer's count leads back to the end of the entries. */
  lemma EndOfEntries(front: seq<byte>, trailer: seq<byte>, header: Header, hashes: seq<byte>, unusedCount: seq<byte>)
    requires |front| >= 8 && IsTrailer(trailer, header, hashes, unusedCount)
    ensures EntriesEnd(front + trailer, header.hasFooter) == Some(|front|)
  {
    hide ToBE;
    if header.hasFooter {
      var data := front + trailer;
      var count := ToBE(|hashes| / 8, 4);
      assert data == (front + hashes) + count + unusedCount;
      SliceMiddle(front + hashes, count, unusedCount, 0, 4);
      U32AtWritten(data, |data| - 8, |hashes| / 8);
    }
  }

  /** An entry whose inode number starts with the free tag disappears from the listing: here the
      next 16 bits happen to be the size of the slot. */
  lemma FreeTaggedEntryIsLost(io: IoHandle)
    requires !CarriesType(io)
    ensures var slot := Used(Entry(0xffff_0010_0000_0000, [0x61]), 0, [0, 0, 0, 0], 0);
            slot.Valid(io) && ParseSlots(io, slot.Format(io), 0, 16) == Some([])
  {
    var slot := Used(Entry(0xffff_0010_0000_0000, [0x61]), 0, [0, 0, 0, 0], 0);
    var data := slot.Format(io);
    SlotSize(io, slot);
    assert [] + data + [] == data;
    UsedFields(io, slot, [], []);
    assert data[2..4] == ToBE(0x10, 2) by {
      UsedPrefix(io, slot);
      assert data[2..4] == ToBE(0xffff_0010_0000_0000, 8)[2..4];
      ThirdAndFourthByte();
    }
    hide U16At, U64At, Slot.Format;
    U16AtWritten(data, 2, 0x10);
    assert ParseSlots(io, data, 16, 16) == Some([]);
  }

  lemma ThirdAndFourthByte()
    ensures ToBE(0xffff_0010_0000_0000, 8)[2..4] == ToBE(0x10, 2)
  {
    hide ToBE;
    HighHalfOfU64(0xffff_0010_0000_0000);
    assert 0xffff_0010_0000_0000 / TWO_32 == 0xffff_0010;
    LowTwoBytes();
    var bytes := ToBE(0xffff_0010_0000_0000, 8);
    assert bytes[2..4] == bytes[..4][2..4];
  }

  lemma LowTwoBytes()
    ensures ToBE(0xffff_0010, 4)[2..4] == ToBE(0x10, 2)
  {
    assert ToBE(0xffff_0010, 4) == ToBE(0xff_ff00, 3) + [0x10];
    assert ToBE(0xff_ff00, 3) == ToBE(0xffff, 2) + [0];
    assert ToBE(0x10, 2) == ToBE(0, 1) + [0x10];
    assert ToBE(0, 1) == [0];
  }
}
