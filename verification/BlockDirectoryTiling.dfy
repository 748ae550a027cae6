/** What it means that a region of directory slots is accepted, and what is read of a region that is cut
    off. */
module BlockDirectoryTiling {
  import opened Integers
  import opened Bytes
  import opened Collections
  import opened IoHandles
  import opened BlockDirectory
  import opened DirectoryLayout
  import opened BlockDirectoryFormat

  // ---------- Accepted regions ----------

  /** Slots tile the region between two offsets; a last one that is unused may reach beyond it. */
  ghost predicate Tiles(io: IoHandle, data: seq<byte>, offset: nat, end: nat, slots: seq<Slot>)
    requires end <= |data|
    decreases |slots|
  {
    if slots == [] then offset == end
    else
      && offset < end && slots[0].Valid(io) && slots[0].Recognizable()
      && var bytes := slots[0].Format(io);
         if offset + |bytes| <= end
         then data[offset..offset + |bytes|] == bytes && Tiles(io, data, offset + |bytes|, end, slots[1..])
         else slots[0].Unused? && slots[1..] == [] && end - offset >= 4 && data[offset..end] == bytes[..end - offset]
  }

  lemma {:induction false} TilesAreListed(io: IoHandle, data: seq<byte>, offset: nat, end: nat, slots: seq<Slot>)
    requires end <= |data| && Tiles(io, data, offset, end, slots)
    ensures ParseSlots(io, data, offset, end) == Some(Listing(slots))
    decreases |slots|
  {
    hide ParseSlots, Slot.Format, Slot.Valid, Slot.Recognizable;
    if slots == [] {
      ParseSlotsDone(io, data, offset, end);
    } else {
      var size := |slots[0].Format(io)|;
      if offset + size <= end {
        ParseOneSlotAt(io, slots[0], data, offset, end);
        TilesAreListed(io, data, offset + size, end, slots[1..]);
      } else {
        UnusedReachesBeyond(io, slots[0], data, offset, end);
        assert slots == [slots[0]] + [];
        ListingOfFirst(slots[0], []);
        assert Listing(slots) == [];
      }
    }
  }

  /** The four bytes at the front of an unused slot are enough to skip it. */
  lemma UnusedReachesBeyond(io: IoHandle, slot: Slot, data: seq<byte>, offset: nat, end: nat)
    requires slot.Unused? && slot.Valid(io)
    requires offset + 4 <= end <= |data| && end < offset + |slot.Format(io)|
    requires data[offset..end] == slot.Format(io)[..end - offset]
    ensures ParseSlots(io, data, offset, end) == Some([])
  {
    var size := 4 + |slot.content|;
    var bytes := slot.Format(io);
    FreeTagBytes();
    assert bytes[0..2] == ToBE(FREE_TAG, 2) && bytes[2..4] == ToBE(size, 2);
    hide ToBE, U16At, Slot.Format, ParseSlots;
    SliceOfSlice(data, offset, end, 0, 2);
    SliceOfSlice(data, offset, end, 2, 2);
    U16AtWritten(data, offset, FREE_TAG);
    U16AtWritten(data, offset + 2, size);
    ParseSlotsStep(io, data, offset, end);
    ParseSlotsDone(io, data, offset + size, end);
  }

  /** The slots that an accepted region is tiled with. */
  lemma {:induction false} ListedIsTiled(io: IoHandle, data: seq<byte>, offset: nat, end: nat)
    returns (slots: seq<Slot>)
    requires offset <= end <= |data| && ParseSlots(io, data, offset, end).Some?
    ensures Tiles(io, data, offset, end, slots) && ParseSlots(io, data, offset, end) == Some(Listing(slots))
    decreases end - offset
  {
    hide ParseSlots, U16At, U64At, EntrySize, ListEntry, Slot.Format, Slot.Valid, Slot.Recognizable, Slot.Listed, Tiles,
         Listing;
    ParseSlotsDone(io, data, end, end);
    if offset == end {
      slots := [];
      NothingTiles(io, data, end);
    } else {
      ParseSlotsStep(io, data, offset, end);
      var slot: Slot;
      if U16At(data, offset) == FREE_TAG {
        slot := UnusedAt(io, data, offset, end);
      } else {
        slot := UsedAt(io, data, offset, end);
      }
      ListedIsListed(slot);
      var next := offset + |slot.Format(io)|;
      var more: seq<Slot> := [];
      if next <= end {
        more := ListedIsTiled(io, data, next, end);
      } else {
        ParseSlotsDone(io, data, next, end);
        NothingTiles(io, data, end);
      }
      slots := [slot] + more;
      SlotTiles(io, data, offset, end, slot, more);
      ListingOfFirst(slot, more);
      assert slot.Unused? ==> slot.Listed() + Listing(more) == Listing(more);
    }
  }

  lemma NothingTiles(io: IoHandle, data: seq<byte>, end: nat)
    requires end <= |data|
    ensures Tiles(io, data, end, end, []) && Listing([]) == []
  {
  }

  lemma SlotTiles(io: IoHandle, data: seq<byte>, offset: nat, end: nat, slot: Slot, more: seq<Slot>)
    requires offset < end <= |data| && slot.Valid(io) && slot.Recognizable()
    requires var next := offset + |slot.Format(io)|;
             if next <= end then data[offset..next] == slot.Format(io) && Tiles(io, data, next, end, more)
             else
               && slot.Unused? && more == [] && end - offset >= 4
               && data[offset..end] == slot.Format(io)[..end - offset]
    ensures Tiles(io, data, offset, end, [slot] + more)
  {
    hide Slot.Format, Slot.Valid, Slot.Recognizable;
    assert ([slot] + more)[1..] == more;
  }

  /** The unused slot that a step skips. */
  lemma UnusedAt(io: IoHandle, data: seq<byte>, offset: nat, end: nat) returns (slot: Slot)
    requires offset + 4 <= end <= |data| && U16At(data, offset) == FREE_TAG && U16At(data, offset + 2) >= 4
    ensures slot.Unused? && slot.Valid(io) && slot.Recognizable() && slot.Listed() == []
    ensures |slot.Format(io)| == U16At(data, offset + 2)
    ensures var size := |slot.Format(io)|;
            if offset + size <= end then data[offset..offset + size] == slot.Format(io)
            else data[offset..end] == slot.Format(io)[..end - offset]
  {
    FreeTagBytes();
    var size := U16At(data, offset + 2);
    var present := if offset + size <= end then size else end - offset;
    var missing := size - present;
    slot := Unused(data[offset + 4..offset + present] + Zeros(missing));
    U16AtBytes(data, offset);
    U16AtBytes(data, offset + 2);
    hide ToBE, U16At;
    assert slot.Format(io) == data[offset..offset + 2] + data[offset + 2..offset + 4]
           + data[offset + 4..offset + present] + Zeros(missing);
    assert data[offset..offset + 2] + data[offset + 2..offset + 4] + data[offset + 4..offset + present] ==
           data[offset..offset + present];
    assert missing == 0 ==> Zeros(missing) == [];
  }

  /** The used slot that a step takes. */
  lemma UsedAt(io: IoHandle, data: seq<byte>, offset: nat, end: nat) returns (slot: Slot)
    requires offset + 9 <= end <= |data| && U16At(data, offset) != FREE_TAG
    requires offset + EntrySize(io, data[offset + 8]) <= end
    ensures slot.Used? && slot.Valid(io) && slot.Recognizable()
    ensures slot.entry == Entry(U64At(data, offset), data[offset + 9..offset + 9 + data[offset + 8]])
    ensures |slot.Format(io)| == EntrySize(io, data[offset + 8])
    ensures data[offset..offset + |slot.Format(io)|] == slot.Format(io)
  {
    UntaggedInode(data, offset);
    var nameSize := data[offset + 8];
    var nameEnd := offset + 9 + nameSize;
    var paddingStart := nameEnd + FileTypeSize(io);
    var tagStart := offset + EntrySize(io, nameSize) - 2;
    var fileType := if CarriesType(io) then data[nameEnd] else 0;
    TypeByteAgrees(io, fileType);
    slot := Used(Entry(U64At(data, offset), data[offset + 9..nameEnd]), fileType, data[paddingStart..tagStart],
      U16At(data, tagStart));
    U64AtBytes(data, offset);
    U16AtBytes(data, tagStart);
    hide ToBE, U16At, U64At, EntrySize, Geometry.HasFileType, CarriesType, Slot.Recognizable;
    assert TypeBytes(io, fileType) == data[nameEnd..paddingStart];
    assert [nameSize] == data[offset + 8..offset + 9];
    Join(data, offset, offset + 8, offset + 9);
    Join(data, offset, offset + 9, nameEnd);
    Join(data, offset, nameEnd, paddingStart);
    Join(data, offset, paddingStart, tagStart);
    Join(data, offset, tagStart, tagStart + 2);
  }

  /** On arbitrary bytes, a region is accepted exactly when recognizable slots tile it, and it is listed as
      those slots are. */
  lemma RegionExactly(io: IoHandle, data: seq<byte>, offset: nat, end: nat, es: seq<Entry>)
    requires offset <= end <= |data|
    ensures ParseSlots(io, data, offset, end) == Some(es) <==>
            exists slots :: Tiles(io, data, offset, end, slots) && Listing(slots) == es
  {
    hide ParseSlots, Tiles, Listing;
    if ParseSlots(io, data, offset, end).Some? {
      var slots := ListedIsTiled(io, data, offset, end);
    }
    forall slots | Tiles(io, data, offset, end, slots)
      ensures ParseSlots(io, data, offset, end) == Some(Listing(slots))
    {
      TilesAreListed(io, data, offset, end, slots);
    }
  }

  /** On arbitrary bytes, a block is accepted exactly when it has one of the four headers, its footer, if
      it has one, leaves room for the hash values it counts, and recognizable slots tile what lies
      between; hash values that reach into the header leave no entries. */
  lemma BlockExactly(io: IoHandle, data: seq<byte>, es: seq<Entry>)
    ensures Parse(io, data) == Some(es) <==>
            && ParseHeader(data).Some?
            && var header := ParseHeader(data).value;
               var start := HeaderBytes(header.formatVersion);
               var hashes := if header.hasFooter then 8 + 8 * U32At(data, |data| - 8) else 0;
               && hashes <= |data|
               && var end := |data| - hashes;
                  if end < start then es == []
                  else exists slots :: Tiles(io, data, start, end, slots) && Listing(slots) == es
  {
    hide ParseSlots, Tiles, Listing, ParseHeader, HeaderBytes, HeaderSize, U32At;
    if ParseHeader(data).Some? {
      HeadersAgree(ParseHeader(data).value);
    }
    if ParseHeader(data).Some? && EntriesEnd(data, ParseHeader(data).value.hasFooter).Some? {
      var header := ParseHeader(data).value;
      var start, end := HeaderBytes(header.formatVersion), EntriesEnd(data, header.hasFooter).value;
      if end < start {
        ParseSlotsDone(io, data, start, end);
      } else {
        RegionExactly(io, data, start, end, es);
      }
    }
  }

  // ---------- Regions that are cut off ----------

  /** The slots stand in the data. */
  ghost predicate StandAt(io: IoHandle, data: seq<byte>, offset: nat, slots: seq<Slot>) {
    && AllValid(io, slots) && AllRecognizable(slots) && offset + |FormatSlots(io, slots)| <= |data|
    && data[offset..offset + |FormatSlots(io, slots)|] == FormatSlots(io, slots)
  }

  /** Whole slots in front of an end are listed, and reading goes on behind them. */
  lemma {:induction false} FrontIsListed(io: IoHandle, front: seq<Slot>, data: seq<byte>, offset: nat, end: nat)
    requires StandAt(io, data, offset, front) && offset + |FormatSlots(io, front)| <= end <= |data|
    ensures ParseSlots(io, data, offset, end) ==
            Prepend(Listing(front), ParseSlots(io, data, offset + |FormatSlots(io, front)|, end))
    decreases |front|
  {
    hide ParseSlots, Slot.Format, Slot.Valid, Slot.Recognizable, Prepend;
    if front == [] {
      PrependNothing(ParseSlots(io, data, offset, end));
    } else {
      var first, rest := front[0].Format(io), FormatSlots(io, front[1..]);
      var at := offset + |FormatSlots(io, front)|;
      SplitAt(data, offset, at, first, rest);
      ParseOneSlotAt(io, front[0], data, offset, end);
      FrontIsListed(io, front[1..], data, offset + |first|, end);
      PrependTwice(front[0].Listed(), Listing(front[1..]), ParseSlots(io, data, at, end));
    }
  }

  /** A slot that an end cuts is skipped if it is unused and its size is in front of the end; otherwise
      the whole region is refused. */
  lemma SlotIsCut(io: IoHandle, slot: Slot, data: seq<byte>, offset: nat, end: nat)
    requires slot.Valid(io) && slot.Recognizable()
    requires offset < end < offset + |slot.Format(io)| <= |data|
    requires data[offset..offset + |slot.Format(io)|] == slot.Format(io)
    ensures ParseSlots(io, data, offset, end) == if slot.Unused? && end - offset >= 4 then Some([]) else None
  {
    hide ParseSlots, U16At, U64At, Slot.Format, EntrySize;
    var bytes := slot.Format(io);
    SlotSize(io, slot);
    ParseSlotsStep(io, data, offset, end);
    assert data[..offset] + bytes + data[offset + |bytes|..] == data;
    if slot.Used? {
      UsedFields(io, slot, data[..offset], data[offset + |bytes|..]);
    } else if end - offset >= 4 {
      assert data[offset..end] == data[offset..offset + |bytes|][..end - offset];
      UnusedReachesBeyond(io, slot, data, offset, end);
    }
  }

  /** The end falls behind the front slots: between two slots, or inside the first slot of the back. */
  ghost predicate CutsAt(io: IoHandle, start: nat, end: nat, front: seq<Slot>, back: seq<Slot>)
    requires AllValid(io, front) && AllValid(io, back)
  {
    var at := start + |FormatSlots(io, front)|;
    at <= end && (at < end ==> back != [] && back[0].Valid(io) && end < at + |back[0].Format(io)|)
  }

  /** The cut falls between two slots, or behind the size of an unused one. */
  ghost predicate CleanCut(io: IoHandle, start: nat, end: nat, front: seq<Slot>, back: seq<Slot>)
    requires AllValid(io, front) && AllValid(io, back) && CutsAt(io, start, end, front, back)
  {
    var at := start + |FormatSlots(io, front)|;
    at == end || (back[0].Unused? && end - at >= 4)
  }

  /** Every end inside a tiled region cuts it somewhere. */
  lemma {:induction false} CutExists(io: IoHandle, slots: seq<Slot>, start: nat, end: nat)
    returns (front: seq<Slot>, back: seq<Slot>)
    requires AllValid(io, slots) && start <= end <= start + |FormatSlots(io, slots)|
    ensures slots == front + back && AllValid(io, front) && AllValid(io, back)
    ensures CutsAt(io, start, end, front, back)
    decreases |slots|
  {
    hide Slot.Format, Slot.Valid;
    if slots == [] || end < start + |slots[0].Format(io)| {
      front, back := [], slots;
    } else {
      var more: seq<Slot>;
      more, back := CutExists(io, slots[1..], start + |slots[0].Format(io)|, end);
      front := [slots[0]] + more;
      assert front[1..] == more;
    }
  }

  lemma {:induction false} FormatAppend(io: IoHandle, a: seq<Slot>, b: seq<Slot>)
    requires AllValid(io, a) && AllValid(io, b)
    ensures AllValid(io, a + b) && FormatSlots(io, a + b) == FormatSlots(io, a) + FormatSlots(io, b)
    decreases |a|
  {
    hide Slot.Format, Slot.Valid;
    if a == [] {
      assert a + b == b;
    } else {
      FormatAppend(io, a[1..], b);
      assert (a + b)[1..] == a[1..] + b;
    }
  }

  lemma {:induction false} ListingAppend(a: seq<Slot>, b: seq<Slot>)
    ensures Listing(a + b) == Listing(a) + Listing(b)
    decreases |a|
  {
    hide Slot.Listed;
    if a == [] {
      assert a + b == b;
    } else {
      ListingAppend(a[1..], b);
      assert (a + b)[1..] == a[1..] + b;
    }
  }

  /** A region that is cut off is read as the slots in front of the cut if the cut is clean, and refused
      otherwise. */
  lemma CutRegionExactly(io: IoHandle, front: seq<Slot>, back: seq<Slot>, data: seq<byte>, start: nat, end: nat)
    requires AllValid(io, front) && AllValid(io, back) && CutsAt(io, start, end, front, back)
    requires StandAt(io, data, start, front + back) && end <= |data|
    ensures ParseSlots(io, data, start, end) ==
            if CleanCut(io, start, end, front, back) then Some(Listing(front)) else None
    ensures ParseSlots(io, data, start, end) == Some(Listing(front + back)) <==>
            CleanCut(io, start, end, front, back) && Listing(back) == []
  {
    hide ParseSlots, Slot.Format, Slot.Valid, Slot.Recognizable, Listing;
    var at := start + |FormatSlots(io, front)|;
    FrontStands(io, front, back, data, start);
    FrontIsListed(io, front, data, start, end);
    PrependEnd(Listing(front));
    PrependNone(Listing(front));
    if at == end {
      ParseSlotsDone(io, data, at, end);
    } else {
      SlotIsCut(io, back[0], data, at, end);
    }
    ListingAppend(front, back);
    assert Listing(front) + [] == Listing(front);
  }

  lemma FrontStands(io: IoHandle, front: seq<Slot>, back: seq<Slot>, data: seq<byte>, start: nat)
    requires AllValid(io, front) && AllValid(io, back) && StandAt(io, data, start, front + back)
    ensures StandAt(io, data, start, front) && AllRecognizable(back)
    ensures var at := start + |FormatSlots(io, front)|;
            back != [] ==> && at + |back[0].Format(io)| <= |data|
                           && data[at..at + |back[0].Format(io)|] == back[0].Format(io)
                           && back[0].Valid(io) && back[0].Recognizable()
  {
    hide Slot.Format, Slot.Valid, Slot.Recognizable, FormatSlots, AllRecognizable;
    FormatAppend(io, front, back);
    PartsAreRecognizable(front, back);
    var a, b := FormatSlots(io, front), FormatSlots(io, back);
    SplitAt(data, start, start + |a + b|, a, b);
    if back != [] {
      FirstSlot(io, back);
      SplitAt(data, start + |a|, start + |a + b|, back[0].Format(io), FormatSlots(io, back[1..]));
    }
  }

  lemma FirstSlot(io: IoHandle, slots: seq<Slot>)
    requires AllValid(io, slots) && slots != []
    ensures slots[0].Valid(io) && AllValid(io, slots[1..])
    ensures AllRecognizable(slots) ==> slots[0].Recognizable()
    ensures FormatSlots(io, slots) == slots[0].Format(io) + FormatSlots(io, slots[1..])
  {
    hide Slot.Format, Slot.Valid, Slot.Recognizable;
  }

  lemma PartsAreRecognizable(front: seq<Slot>, back: seq<Slot>)
    requires AllRecognizable(front + back)
    ensures AllRecognizable(front) && AllRecognizable(back)
  {
    hide Slot.Recognizable;
    forall slot | slot in front || slot in back
      ensures slot.Recognizable()
    {
      assert slot in front + back;
    }
  }

  /** What is read depends on the bytes in front of the end only. */
  lemma {:induction false} ReadsBelowTheEnd(io: IoHandle, data: seq<byte>, size: nat, offset: nat, end: nat)
    requires end <= size <= |data|
    ensures ParseSlots(io, data[..size], offset, end) == ParseSlots(io, data, offset, end)
    decreases end - offset
  {
    hide ParseSlots, U16At, U64At, EntrySize, ListEntry, Prepend;
    var front := data[..size];
    if offset >= end {
      ParseSlotsDone(io, data, offset, end);
      ParseSlotsDone(io, front, offset, end);
    } else {
      ParseSlotsStep(io, data, offset, end);
      ParseSlotsStep(io, front, offset, end);
      SameFields(data, size, offset);
      if end - offset >= 4 && U16At(data, offset) == FREE_TAG {
        SameFields(data, size, offset + 2);
        if U16At(data, offset + 2) >= 4 {
          ReadsBelowTheEnd(io, data, size, offset + U16At(data, offset + 2), end);
        }
      } else if end - offset >= 9 && EntrySize(io, data[offset + 8]) <= end - offset {
        var nameEnd := offset + 9 + data[offset + 8];
        assert front[offset + 9..nameEnd] == data[offset + 9..nameEnd];
        ReadsBelowTheEnd(io, data, size, offset + EntrySize(io, data[offset + 8]), end);
      }
    }
  }

  lemma SameFields(data: seq<byte>, size: nat, offset: nat)
    requires size <= |data|
    ensures offset + 2 <= size ==> U16At(data[..size], offset) == U16At(data, offset)
    ensures offset + 4 <= size ==> U32At(data[..size], offset) == U32At(data, offset)
    ensures offset + 8 <= size ==> U64At(data[..size], offset) == U64At(data, offset)
  {
    if offset + 2 <= size {
      assert data[..size][offset..offset + 2] == data[offset..offset + 2];
    }
    if offset + 4 <= size {
      assert data[..size][offset..offset + 4] == data[offset..offset + 4];
    }
    if offset + 8 <= size {
      assert data[..size][offset..offset + 8] == data[offset..offset + 8];
    }
  }
}
