/** Extents: the packed record, extent lists with their sparse gaps, and the block map they mean. */
module Extents {
  import opened Integers
  import opened Bytes
  import opened Collections
  import opened IoHandles

  const TWO_9: int := 0x200
  const TWO_21: int := 0x20_0000
  const TWO_43: int := 0x800_0000_0000
  const TWO_54: int := 0x40_0000_0000_0000

  const FLAG_IS_SPARSE: nat := 1

  /** An extent maps numberOfBlocks logical blocks onto a run of physical blocks, or onto nothing. */
  datatype Extent = Extent(logicalBlockNumber: nat, physicalBlockNumber: nat, numberOfBlocks: nat, rangeFlags: nat) {
    predicate IsSparse() {
      rangeFlags % 2 == FLAG_IS_SPARSE
    }

    function End(): nat {
      logicalBlockNumber + numberOfBlocks
    }

    predicate Contains(block: nat) {
      logicalBlockNumber <= block < End()
    }
  }

  // ---------- The packed 128-bit record ----------

  /** The value of the 16 bytes of a record, as the code computes it. */
  function DecodeExtent(data: seq<byte>): (e: Extent)
    requires |data| >= 16
    ensures e.logicalBlockNumber < TWO_54 && e.numberOfBlocks < TWO_21
  {
    var upper := U64At(data, 0);
    var lower := U64At(data, 8);
    Extent(
      upper / TWO_9 % TWO_54,
      BitOr(lower / TWO_21, upper % TWO_9),
      lower % TWO_21,
      if upper / TWO_9 / TWO_54 == 0 then 0 else FLAG_IS_SPARSE)
  }

  class ExtentRecord {
    var logicalBlockNumber: nat
    var physicalBlockNumber: nat
    var numberOfBlocks: nat
    var rangeFlags: nat

    constructor ()
      ensures Value() == Extent(0, 0, 0, 0)
    {
      logicalBlockNumber, physicalBlockNumber, numberOfBlocks, rangeFlags := 0, 0, 0, 0;
    }

    function Value(): Extent
      reads this
    {
      Extent(logicalBlockNumber, physicalBlockNumber, numberOfBlocks, rangeFlags)
    }

    method ReadData(data: seq<byte>) returns (ok: bool)
      modifies this
      ensures ok == (|data| >= 16)
      ensures Value() == if ok then DecodeExtent(data) else old(Value())
    {
      if |data| < 16 {
        return false;
      }
      var upper := U64At(data, 0);
      var lower := U64At(data, 8);
      numberOfBlocks := lower % TWO_21;
      lower := lower / TWO_21;
      physicalBlockNumber := BitOr(lower, upper % TWO_9);
      upper := upper / TWO_9;
      logicalBlockNumber := upper % TWO_54;
      upper := upper / TWO_54;
      if upper == 0 {
        rangeFlags := 0;
      } else {
        rangeFlags := FLAG_IS_SPARSE;
      }
      ok := true;
    }
  }

  /** A new record, filled from its 16 bytes. */
  method ReadRecord(data: seq<byte>) returns (extent: Extent)
    requires |data| == 16
    ensures extent == DecodeExtent(data)
  {
    var record := new ExtentRecord();
    var read := record.ReadData(data);
    extent := record.Value();
  }

  /** The fields fit the widths that the on-disk format gives them. */
  predicate Packable(e: Extent) {
    && e.logicalBlockNumber < 0x40_0000_0000_0000 && e.physicalBlockNumber < 0x10_0000_0000_0000
    && e.numberOfBlocks < 0x20_0000 && e.rangeFlags <= 1
  }

  /** The packed extent record of the format: from the top, 1 flag bit, 54 bits logical block
      number, 52 bits physical block number, 21 bits number of blocks. */
  function EncodeExtent(e: Extent): (data: seq<byte>)
    ensures |data| == 16
  {
    ToBE(e.rangeFlags * 0x8000_0000_0000_0000 + e.logicalBlockNumber * 0x200
      + e.physicalBlockNumber / 0x800_0000_0000, 8) +
    ToBE(e.physicalBlockNumber % 0x800_0000_0000 * 0x20_0000 + e.numberOfBlocks, 8)
  }

  lemma EncodedWords(e: Extent)
    requires Packable(e)
    ensures U64At(EncodeExtent(e), 0) == e.rangeFlags * TWO_63 + e.logicalBlockNumber * TWO_9
            + e.physicalBlockNumber / TWO_43
    ensures U64At(EncodeExtent(e), 8) == e.physicalBlockNumber % TWO_43 * TWO_21 + e.numberOfBlocks
  {
    var upper := e.rangeFlags * TWO_63 + e.logicalBlockNumber * TWO_9 + e.physicalBlockNumber / TWO_43;
    var lower := e.physicalBlockNumber % TWO_43 * TWO_21 + e.numberOfBlocks;
    var data := EncodeExtent(e);
    assert data[0..8] == ToBE(upper, 8);
    assert data[8..16] == ToBE(lower, 8);
    U64AtWritten(data, 0, upper);
    U64AtWritten(data, 8, lower);
  }

  /** Every field but the physical block number survives; the high nine physical bits are or-ed
      into the low end instead of being shifted up. */
  lemma DecodeEncode(e: Extent)
    requires Packable(e)
    ensures DecodeExtent(EncodeExtent(e)) ==
            e.(physicalBlockNumber := BitOr(e.physicalBlockNumber % TWO_43, e.physicalBlockNumber / TWO_43))
  {
    EncodedWords(e);
    SplitUpper(e.rangeFlags, e.logicalBlockNumber, e.physicalBlockNumber / TWO_43);
    SplitLower(e.physicalBlockNumber % TWO_43, e.numberOfBlocks);
  }

  lemma SplitUpper(flag: nat, logical: nat, high: nat)
    requires flag <= 1 && logical < TWO_54 && high < TWO_9
    ensures var upper := flag * TWO_63 + logical * TWO_9 + high;
            && upper % TWO_9 == high
            && upper / TWO_9 % TWO_54 == logical
            && upper / TWO_9 / TWO_54 == flag
  {
    var upper := flag * TWO_63 + logical * TWO_9 + high;
    assert upper == (flag * TWO_54 + logical) * TWO_9 + high;
    assert upper / TWO_9 == flag * TWO_54 + logical;
  }

  lemma SplitLower(low: nat, count: nat)
    requires count < TWO_21
    ensures (low * TWO_21 + count) % TWO_21 == count
    ensures (low * TWO_21 + count) / TWO_21 == low
  {
  }

  /** Decoding inverts encoding exactly for physical block numbers below 2^43. */
  lemma DecodeEncodeExactly(e: Extent)
    requires Packable(e)
    ensures DecodeExtent(EncodeExtent(e)) == e <==> e.physicalBlockNumber < 0x800_0000_0000
  {
    DecodeEncode(e);
    Pow2Of43();
    Pow2Bound(9, 43);
    assert Pow2(9) == TWO_9;
    BitOrBound(e.physicalBlockNumber % TWO_43, e.physicalBlockNumber / TWO_43, 43);
  }

  lemma Pow2Of43()
    ensures Pow2(43) == TWO_43
  {
    assert Pow2(10) == 0x400;
    assert Pow2(20) == 0x10_0000;
    assert Pow2(30) == 0x4000_0000;
    assert Pow2(40) == 0x100_0000_0000;
  }

  /** The smallest physical block number that comes back wrong: 2^43 is read as block 1. */
  lemma DecodeLosesHighBits()
    ensures DecodeExtent(EncodeExtent(Extent(0, 0x800_0000_0000, 1, 0))) == Extent(0, 1, 1, 0)
  {
    DecodeEncode(Extent(0, 0x800_0000_0000, 1, 0));
  }

  // ---------- The untranslated values of an extent ----------

  /** The offset, size and flags of an extent; the offset ignores allocation groups. */
  method GetValues(e: Extent, io: IoHandle) returns (ok: bool, offset: int, size: nat, flags: nat)
    ensures ok <==>
            && io.blockSize != 0
            && e.physicalBlockNumber * io.blockSize < TWO_63 && e.numberOfBlocks * io.blockSize < TWO_64
    ensures ok ==>
            && offset == e.physicalBlockNumber * io.blockSize
            && size == e.numberOfBlocks * io.blockSize && flags == e.rangeFlags
  {
    ok, offset, size, flags := false, 0, 0, 0;
    if io.blockSize == 0 {
      return;
    }
    WithinQuotient(e.physicalBlockNumber, io.blockSize, TWO_63 - 1);
    WithinQuotient(e.numberOfBlocks, io.blockSize, TWO_64 - 1);
    if e.physicalBlockNumber > (TWO_63 - 1) / io.blockSize {
      return;
    }
    if e.numberOfBlocks > (TWO_64 - 1) / io.blockSize {
      return;
    }
    ok, offset, size, flags := true, e.physicalBlockNumber * io.blockSize, e.numberOfBlocks * io.blockSize,
      e.rangeFlags;
  }

  lemma WithinQuotient(x: nat, m: nat, max: nat)
    requires m > 0
    ensures x <= max / m <==> x * m <= max
  {
    var q := max / m;
    assert q * m <= max < q * m + m;
    if x <= q {
      MulMono(x, q, m);
    } else {
      MulStep(q, x, m);
    }
  }

  /** The untranslated offset is the stored one exactly in allocation group 0, or when groups are as
      large as the relative part of a block number can express. */
  lemma UntranslatedOffsetExactly(io: IoHandle, block: nat)
    requires io.Addressable(block) && io.blockSize > 0
    ensures block * io.blockSize == io.ByteOffset(block) <==>
            io.Group(block) == 0 || io.allocationGroupSize == io.GroupSpan()
  {
    io.SplitBlock(block);
    io.ByteOffsetExact(block);
    UntranslatedExactly(io.Group(block), io.GroupSpan(), io.allocationGroupSize, io.RelativeBlock(block), io.blockSize);
  }

  /** In a volume with groups of five blocks, the first block of the second group has number 8. */
  lemma UntranslatedOffsetIsWrong()
    ensures var io: IoHandle := Geometry(4, 0, 4096, 5, 4096, 3);
            io.Addressable(8) && io.ByteOffset(8) == 5 * 4096 && io.ByteOffset(8) != 8 * io.blockSize
  {
    assert Pow2(3) == 8;
  }

  lemma UntranslatedExactly(group: nat, span: nat, size: nat, relative: nat, blockSize: nat)
    requires blockSize > 0
    ensures (group * span + relative) * blockSize == (group * size + relative) * blockSize <==>
            group == 0 || size == span
  {
    var a, b := group * span + relative, group * size + relative;
    if a < b {
      MulStrict(a, b, blockSize);
    } else if b < a {
      MulStrict(b, a, blockSize);
    }
    if group > 0 && size < span {
      MulStrict(size, span, group);
    } else if group > 0 && span < size {
      MulStrict(span, size, group);
    }
  }

  // ---------- Lists of records ----------

  function DecodeExtents(data: seq<byte>, n: nat): (xs: seq<Extent>)
    requires 16 * n <= |data|
    ensures |xs| == n
  {
    if n == 0 then [] else DecodeExtents(data, n - 1) + [DecodeExtent(data[16 * (n - 1)..16 * n])]
  }

  function EncodeExtents(xs: seq<Extent>): (data: seq<byte>)
    ensures |data| == 16 * |xs|
  {
    if xs == [] then [] else EncodeExtents(xs[..|xs| - 1]) + EncodeExtent(xs[|xs| - 1])
  }

  lemma DecodeExtentsStep(data: seq<byte>, n: nat, e: Extent)
    requires n > 0 && 16 * n <= |data|
    requires data[16 * (n - 1)..16 * n] == EncodeExtent(e)
    requires Packable(e) && e.physicalBlockNumber < 0x800_0000_0000
    ensures DecodeExtents(data, n) == DecodeExtents(data, n - 1) + [e]
  {
    DecodeEncodeExactly(e);
  }

  /** The records of a leaf decode to the list they were encoded from, whatever follows them. */
  lemma {:induction false} DecodeEncodeList(xs: seq<Extent>, more: seq<byte>)
    requires forall e | e in xs :: Packable(e) && e.physicalBlockNumber < 0x800_0000_0000
    ensures DecodeExtents(EncodeExtents(xs) + more, |xs|) == xs
    decreases |xs|
  {
    hide DecodeExtent, EncodeExtent;
    if xs != [] {
      var init, last := xs[..|xs| - 1], xs[|xs| - 1];
      var a, b := EncodeExtents(init), EncodeExtent(last);
      DecodeEncodeList(init, b + more);
      SliceMiddle(a, b, more, 0, |b|);
      assert a + (b + more) == a + b + more;
      DecodeExtentsStep(a + b + more, |xs|, last);
    }
  }

  // ---------- The block map of an extent list ----------

  /** Where a logical block is: in a hole of the file, or at a physical block. */
  datatype Location = Hole | At(block: nat)

  /** The index of the first extent that contains the block. */
  function FindExtent(xs: seq<Extent>, block: nat): (r: Option<nat>)
    ensures r.Some? ==> r.value < |xs| && xs[r.value].Contains(block)
    ensures forall i | 0 <= i < (if r.Some? then r.value else |xs|) :: !xs[i].Contains(block)
  {
    if xs == [] then None
    else if xs[0].Contains(block) then Some(0)
    else
      var r := FindExtent(xs[1..], block);
      assert forall i | 0 < i < |xs| :: xs[i] == xs[1..][i - 1];
      if r.Some? then Some(r.value + 1) else None
  }

  /** Where an extent alone puts a block. */
  function Locate(x: Extent, block: nat): Location {
    if x.Contains(block) && !x.IsSparse() then At(x.physicalBlockNumber + (block - x.logicalBlockNumber)) else Hole
  }

  function MapAt(xs: seq<Extent>, block: nat): Location {
    match FindExtent(xs, block)
    case None => Hole
    case Some(i) => Locate(xs[i], block)
  }

  /** The logical block number after the last extent, in the 64-bit arithmetic of the code. */
  function EndOf(xs: seq<Extent>): (end: nat)
    ensures end < TWO_64
  {
    if xs == [] then 0 else U64(xs[|xs| - 1].End())
  }

  ghost predicate InRange(xs: seq<Extent>) {
    forall e | e in xs :: e.End() < TWO_64
  }

  /** Each extent starts at or after the end of the one before. */
  ghost predicate Ordered(xs: seq<Extent>) {
    xs == [] || (Ordered(xs[..|xs| - 1]) && EndOf(xs[..|xs| - 1]) <= xs[|xs| - 1].logicalBlockNumber)
  }

  /** Each extent starts exactly at the end of the one before, the first one at block 0. */
  ghost predicate GapFree(xs: seq<Extent>) {
    xs == [] || (GapFree(xs[..|xs| - 1]) && EndOf(xs[..|xs| - 1]) == xs[|xs| - 1].logicalBlockNumber)
  }

  lemma {:induction false} OrderedEnds(xs: seq<Extent>)
    requires InRange(xs) && Ordered(xs)
    ensures forall i | 0 <= i < |xs| :: xs[i].End() <= EndOf(xs)
  {
    if xs != [] {
      OrderedEnds(xs[..|xs| - 1]);
    }
  }

  lemma {:induction false} GapFreeIsOrdered(xs: seq<Extent>)
    requires GapFree(xs)
    ensures Ordered(xs)
  {
    if xs != [] {
      GapFreeIsOrdered(xs[..|xs| - 1]);
    }
  }

  /** A gap-free list covers every block below its end. */
  lemma {:induction false} GapFreeCovers(xs: seq<Extent>, block: nat)
    requires InRange(xs) && GapFree(xs) && block < EndOf(xs)
    ensures FindExtent(xs, block).Some?
    decreases |xs|
  {
    var last := |xs| - 1;
    if block >= xs[last].logicalBlockNumber {
      assert xs[last].Contains(block);
    } else {
      GapFreeCovers(xs[..last], block);
      var i := FindExtent(xs[..last], block).value;
      assert xs[i].Contains(block);
    }
  }

  lemma MapBeyondEnd(xs: seq<Extent>, block: nat)
    requires InRange(xs) && Ordered(xs) && block >= EndOf(xs)
    ensures FindExtent(xs, block).None?
    ensures MapAt(xs, block) == Hole
  {
    OrderedEnds(xs);
  }

  lemma {:induction false} FindSnoc(xs: seq<Extent>, x: Extent, block: nat)
    ensures FindExtent(xs + [x], block) ==
            if FindExtent(xs, block).Some? then FindExtent(xs, block)
            else if x.Contains(block) then Some(|xs|)
            else None
    decreases |xs|
  {
    if xs == [] {
      assert (xs + [x])[1..] == [];
    } else {
      assert (xs + [x])[1..] == xs[1..] + [x];
      FindSnoc(xs[1..], x, block);
    }
  }

  lemma MapSnoc(xs: seq<Extent>, x: Extent, block: nat)
    requires InRange(xs) && Ordered(xs) && EndOf(xs) <= x.logicalBlockNumber
    ensures MapAt(xs + [x], block) == if block < x.logicalBlockNumber then MapAt(xs, block) else Locate(x, block)
  {
    FindSnoc(xs, x, block);
    if block >= x.logicalBlockNumber {
      MapBeyondEnd(xs, block);
    }
  }

  // ---------- Reading a list of records, filling gaps with sparse extents ----------

  /** One extent is added; a gap in front of it gets a sparse extent whose length is cut to 32 bits. */
  function AddExtent(xs: seq<Extent>, x: Extent, addSparse: bool): seq<Extent> {
    if addSparse && x.logicalBlockNumber > EndOf(xs) then
      xs + [Extent(EndOf(xs), 0, U32(x.logicalBlockNumber - EndOf(xs)), FLAG_IS_SPARSE)] + [x]
    else
      xs + [x]
  }

  function AddExtents(xs: seq<Extent>, raw: seq<Extent>, addSparse: bool): seq<Extent> {
    if raw == [] then xs
    else AddExtent(AddExtents(xs, raw[..|raw| - 1], addSparse), raw[|raw| - 1], addSparse)
  }

  lemma {:induction false} AddExtentsAppend(xs: seq<Extent>, a: seq<Extent>, b: seq<Extent>, addSparse: bool)
    ensures AddExtents(xs, a + b, addSparse) == AddExtents(AddExtents(xs, a, addSparse), b, addSparse)
    decreases |b|
  {
    if b == [] {
      assert a + b == a;
    } else {
      AddExtentsAppend(xs, a, b[..|b| - 1], addSparse);
      assert (a + b)[..|a + b| - 1] == a + b[..|b| - 1];
    }
  }

  /** Without sparse extents, reading is plain concatenation. */
  lemma {:induction false} AddExtentsPlain(xs: seq<Extent>, raw: seq<Extent>)
    ensures AddExtents(xs, raw, false) == xs + raw
    decreases |raw|
  {
    if raw != [] {
      AddExtentsPlain(xs, raw[..|raw| - 1]);
      assert raw == raw[..|raw| - 1] + [raw[|raw| - 1]];
    }
  }

  /** No gap in front of an extent of raw is wider than the 32-bit length field. */
  ghost predicate GapsFit(raw: seq<Extent>) {
    raw == [] ||
    (GapsFit(raw[..|raw| - 1]) && raw[|raw| - 1].logicalBlockNumber - EndOf(raw[..|raw| - 1]) < TWO_32)
  }

  lemma EndOfAdded(raw: seq<Extent>)
    ensures EndOf(AddExtents([], raw, true)) == EndOf(raw)
  {
  }

  lemma SnocIsGapFree(xs: seq<Extent>, x: Extent)
    ensures GapFree(xs + [x]) <==> GapFree(xs) && EndOf(xs) == x.logicalBlockNumber
    ensures EndOf(xs + [x]) == U64(x.End())
  {
    assert (xs + [x])[..|xs|] == xs;
  }

  /** Filling the gaps of an ordered list gives a list without gaps exactly when every gap fits the
      32-bit length field. */
  lemma {:induction false} FilledIsGapFree(raw: seq<Extent>)
    requires InRange(raw) && Ordered(raw)
    ensures GapFree(AddExtents([], raw, true)) <==> GapsFit(raw)
    decreases |raw|
  {
    if raw != [] {
      var init, x := raw[..|raw| - 1], raw[|raw| - 1];
      FilledIsGapFree(init);
      EndOfAdded(init);
      var xs := AddExtents([], init, true);
      if x.logicalBlockNumber > EndOf(xs) {
        var hole := Extent(EndOf(xs), 0, U32(x.logicalBlockNumber - EndOf(xs)), FLAG_IS_SPARSE);
        SnocIsGapFree(xs, hole);
        SnocIsGapFree(xs + [hole], x);
      } else {
        SnocIsGapFree(xs, x);
      }
    }
  }

  /** A gap of 2^32 blocks is filled with an extent of no blocks. */
  lemma WidestGapIsNotFilled()
    ensures var raw := [Extent(TWO_32, 0, 1, 0)];
            && InRange(raw) && Ordered(raw)
            && AddExtents([], raw, true) == [Extent(0, 0, 0, FLAG_IS_SPARSE)] + raw
            && !GapFree(AddExtents([], raw, true))
  {
    var raw := [Extent(TWO_32, 0, 1, 0)];
    assert raw[..0] == [];
    assert AddExtents([], raw[..0], true) == [];
    FilledIsGapFree(raw);
  }

  /** Adding one extent to two lists that mean the same, with the gap in front of it filled in one
      of them, gives lists that mean the same. */
  lemma AddExtentMeansTheSame(xs: seq<Extent>, raw: seq<Extent>, x: Extent, block: nat)
    requires InRange(xs) && Ordered(xs) && InRange(raw) && Ordered(raw)
    requires EndOf(xs) == EndOf(raw) <= x.logicalBlockNumber && x.End() < TWO_64
    requires MapAt(xs, block) == MapAt(raw, block)
    ensures MapAt(AddExtent(xs, x, true), block) == MapAt(raw + [x], block)
  {
    hide FindExtent, MapAt, InRange, Ordered;
    MapSnoc(raw, x, block);
    if x.logicalBlockNumber > EndOf(xs) {
      var hole := Extent(EndOf(xs), 0, U32(x.logicalBlockNumber - EndOf(xs)), FLAG_IS_SPARSE);
      U32AtMost(x.logicalBlockNumber - EndOf(xs));
      SnocIsOrdered(xs, hole);
      MapSnoc(xs, hole, block);
      MapSnoc(xs + [hole], x, block);
      if block >= EndOf(raw) {
        MapBeyondEnd(raw, block);
      }
    } else {
      MapSnoc(xs, x, block);
    }
  }

  lemma U32AtMost(x: nat)
    ensures U32(x) <= x
  {
  }

  lemma SnocIsOrdered(xs: seq<Extent>, x: Extent)
    requires InRange(xs) && Ordered(xs) && EndOf(xs) <= x.logicalBlockNumber && x.End() < TWO_64
    ensures InRange(xs + [x]) && Ordered(xs + [x]) && EndOf(xs + [x]) == x.End()
  {
    assert (xs + [x])[..|xs|] == xs;
  }

  lemma AddExtentIsOrdered(xs: seq<Extent>, x: Extent)
    requires InRange(xs) && Ordered(xs) && EndOf(xs) <= x.logicalBlockNumber && x.End() < TWO_64
    ensures var ys := AddExtent(xs, x, true); InRange(ys) && Ordered(ys)
  {
    hide InRange, Ordered;
    if x.logicalBlockNumber > EndOf(xs) {
      var hole := Extent(EndOf(xs), 0, U32(x.logicalBlockNumber - EndOf(xs)), FLAG_IS_SPARSE);
      U32AtMost(x.logicalBlockNumber - EndOf(xs));
      SnocIsOrdered(xs, hole);
      SnocIsOrdered(xs + [hole], x);
    } else {
      SnocIsOrdered(xs, x);
    }
  }

  /** Filling gaps keeps the meaning of the list, however wide they are: every block is where it was. */
  lemma {:induction false} FilledMeansTheSame(raw: seq<Extent>, block: nat)
    requires InRange(raw) && Ordered(raw)
    ensures var xs := AddExtents([], raw, true);
            InRange(xs) && Ordered(xs) && MapAt(xs, block) == MapAt(raw, block)
    decreases |raw|
  {
    hide MapAt, FindExtent, AddExtent;
    if raw != [] {
      var init, x := raw[..|raw| - 1], raw[|raw| - 1];
      FilledMeansTheSame(init, block);
      EndOfAdded(init);
      var xs := AddExtents([], init, true);
      AddExtentIsOrdered(xs, x);
      AddExtentMeansTheSame(xs, init, x, block);
      assert raw == init + [x];
    }
  }

  lemma AddNoExtents(xs: seq<Extent>, data: seq<byte>, addSparse: bool)
    ensures AddExtents(xs, DecodeExtents(data, 0), addSparse) == xs
  {
  }

  lemma AddExtentsStep(xs: seq<Extent>, data: seq<byte>, i: nat, addSparse: bool)
    requires 16 * (i + 1) <= |data|
    ensures AddExtents(xs, DecodeExtents(data, i + 1), addSparse) ==
            AddExtent(AddExtents(xs, DecodeExtents(data, i), addSparse), DecodeExtent(data[16 * i..16 * (i + 1)]),
              addSparse)
  {
    assert DecodeExtents(data, i + 1)[..i] == DecodeExtents(data, i);
  }

  /** Reads a list of packed extent records behind the extents already in the array. */
  method ReadExtents(extents: CArray<Extent>, n: nat, data: seq<byte>, addSparse: bool) returns (ok: bool)
    modifies extents
    ensures ok <==> data != [] && n <= |data| / 16
    ensures extents.entries == if ok then AddExtents(old(extents.entries), DecodeExtents(data, n), addSparse)
                               else old(extents.entries)
  {
    hide DecodeExtent, DecodeExtents, AddExtents, U64, U32;
    if data == [] || n > |data| / 16 {
      return false;
    }
    var logicalBlockNumber := 0;
    if extents.entries != [] {
      logicalBlockNumber := U64(extents.entries[|extents.entries| - 1].End());
    }
    var dataOffset := 0;
    AddNoExtents(extents.entries, data, addSparse);
    for i := 0 to n
      invariant dataOffset == 16 * i
      invariant logicalBlockNumber == EndOf(extents.entries)
      invariant extents.entries == AddExtents(old(extents.entries), DecodeExtents(data, i), addSparse)
    {
      var extent := ReadRecord(data[dataOffset..dataOffset + 16]);
      dataOffset := dataOffset + 16;
      AddExtentsStep(old(extents.entries), data, i, addSparse);
      ghost var before := extents.entries;
      if addSparse && extent.logicalBlockNumber > logicalBlockNumber {
        extents.Append(Extent(logicalBlockNumber, 0, U32(extent.logicalBlockNumber - logicalBlockNumber),
          FLAG_IS_SPARSE));
      }
      logicalBlockNumber := U64(extent.End());
      extents.Append(extent);
      assert extents.entries == AddExtent(before, extent, addSparse);
    }
    ok := true;
  }

  // ---------- Filling up to the size of the file ----------

  /** The tail of a list that ends before numberOfBlocks: a sparse last extent grows, any other is
      followed by a new sparse extent; the length is cut to 32 bits. */
  function FillTail(xs: seq<Extent>, numberOfBlocks: nat): seq<Extent> {
    if EndOf(xs) >= numberOfBlocks then xs
    else if xs == [] || !xs[|xs| - 1].IsSparse() then
      xs + [Extent(EndOf(xs), 0, U32(numberOfBlocks - EndOf(xs)), FLAG_IS_SPARSE)]
    else
      var last := xs[|xs| - 1];
      xs[..|xs| - 1] + [last.(numberOfBlocks := U32(last.numberOfBlocks + (numberOfBlocks - EndOf(xs))))]
  }

  /** The new length of the last extent, before it is cut to 32 bits. */
  function TailLength(xs: seq<Extent>, numberOfBlocks: nat): int {
    numberOfBlocks - EndOf(xs) + (if xs == [] || !xs[|xs| - 1].IsSparse() then 0 else xs[|xs| - 1].numberOfBlocks)
  }

  /** Where a completed list ends: at the size of the file, or behind it if extents reach further. */
  function CompletedEnd(raw: seq<Extent>, numberOfBlocks: nat): nat {
    if EndOf(raw) > numberOfBlocks then EndOf(raw) else numberOfBlocks
  }

  lemma FilledTailEnds(xs: seq<Extent>, numberOfBlocks: nat)
    requires InRange(xs) && GapFree(xs) && EndOf(xs) < numberOfBlocks < TWO_64
    ensures GapFree(FillTail(xs, numberOfBlocks))
    ensures EndOf(FillTail(xs, numberOfBlocks)) == numberOfBlocks <==> TailLength(xs, numberOfBlocks) < TWO_32
  {
    var ys := FillTail(xs, numberOfBlocks);
    if xs == [] || !xs[|xs| - 1].IsSparse() {
      assert ys[..|ys| - 1] == xs;
    } else {
      assert ys[..|ys| - 1] == xs[..|xs| - 1];
    }
  }

  /** A file of 2^32 blocks without any extent is completed with an extent of no blocks. */
  lemma LongestTailIsNotFilled()
    ensures FillTail([], TWO_32) == [Extent(0, 0, 0, FLAG_IS_SPARSE)]
    ensures EndOf(FillTail([], TWO_32)) == 0
  {
  }

  /** The fill moves nothing, whatever its length: every block is where it was. The new blocks are holes,
      which an extent covers if the length fits 32 bits. */
  lemma FilledTailMeansTheSame(xs: seq<Extent>, numberOfBlocks: nat, block: nat)
    requires InRange(xs) && Ordered(xs) && numberOfBlocks < TWO_64
    ensures var ys := FillTail(xs, numberOfBlocks);
            && MapAt(ys, block) == MapAt(xs, block)
            && (EndOf(xs) <= block ==> MapAt(ys, block) == Hole)
            && (GapFree(xs) && TailLength(xs, numberOfBlocks) < TWO_32 && EndOf(xs) <= block < numberOfBlocks ==>
                  FindExtent(ys, block).Some?)
  {
    hide FindExtent, MapAt, FillTail;
    if EndOf(xs) <= block {
      MapBeyondEnd(xs, block);
    }
    if EndOf(xs) >= numberOfBlocks {
      assert FillTail(xs, numberOfBlocks) == xs by {
        NothingToFill(xs, numberOfBlocks);
      }
    } else {
      if xs == [] || !xs[|xs| - 1].IsSparse() {
        AppendedHole(xs, numberOfBlocks, block);
      } else {
        ResizedHole(xs, numberOfBlocks, block);
      }
      if GapFree(xs) && TailLength(xs, numberOfBlocks) < TWO_32 && block < numberOfBlocks {
        TailIsCovered(xs, numberOfBlocks, block);
      }
    }
  }

  lemma NothingToFill(xs: seq<Extent>, numberOfBlocks: nat)
    requires EndOf(xs) >= numberOfBlocks
    ensures FillTail(xs, numberOfBlocks) == xs
  {
  }

  lemma TailIsCovered(xs: seq<Extent>, numberOfBlocks: nat, block: nat)
    requires InRange(xs) && GapFree(xs) && EndOf(xs) < numberOfBlocks < TWO_64 && block < numberOfBlocks
    requires TailLength(xs, numberOfBlocks) < TWO_32
    ensures FindExtent(FillTail(xs, numberOfBlocks), block).Some?
  {
    FilledTailEnds(xs, numberOfBlocks);
    FillTailShape(xs, numberOfBlocks);
    GapFreeCovers(FillTail(xs, numberOfBlocks), block);
  }

  lemma FillTailShape(xs: seq<Extent>, numberOfBlocks: nat)
    requires InRange(xs) && EndOf(xs) < numberOfBlocks < TWO_64
    requires TailLength(xs, numberOfBlocks) < TWO_32
    ensures if xs == [] || !xs[|xs| - 1].IsSparse() then
              FillTail(xs, numberOfBlocks) == xs + [Extent(EndOf(xs), 0, numberOfBlocks - EndOf(xs), FLAG_IS_SPARSE)]
            else
              var last := xs[|xs| - 1];
              FillTail(xs, numberOfBlocks) == xs[..|xs| - 1]
                + [last.(numberOfBlocks := last.numberOfBlocks + (numberOfBlocks - EndOf(xs)))]
  {
  }

  lemma AppendedHole(xs: seq<Extent>, numberOfBlocks: nat, block: nat)
    requires InRange(xs) && Ordered(xs) && EndOf(xs) < numberOfBlocks
    requires xs == [] || !xs[|xs| - 1].IsSparse()
    ensures MapAt(FillTail(xs, numberOfBlocks), block) == MapAt(xs, block)
  {
    hide MapAt, FindExtent, InRange, Ordered;
    MapSnoc(xs, Extent(EndOf(xs), 0, U32(numberOfBlocks - EndOf(xs)), FLAG_IS_SPARSE), block);
    if block >= EndOf(xs) {
      MapBeyondEnd(xs, block);
    }
  }

  lemma ResizedHole(xs: seq<Extent>, numberOfBlocks: nat, block: nat)
    requires InRange(xs) && Ordered(xs) && EndOf(xs) < numberOfBlocks
    requires xs != [] && xs[|xs| - 1].IsSparse()
    ensures MapAt(FillTail(xs, numberOfBlocks), block) == MapAt(xs, block)
  {
    hide FindExtent, MapAt, InRange, Ordered, FillTail, U32;
    var init, last := xs[..|xs| - 1], xs[|xs| - 1];
    assert xs == init + [last];
    InitIsOrdered(xs);
    LastIsResized(xs, numberOfBlocks);
    ResizeSparse(init, last, U32(last.numberOfBlocks + (numberOfBlocks - EndOf(xs))), block);
  }

  lemma InitIsOrdered(xs: seq<Extent>)
    requires InRange(xs) && Ordered(xs) && xs != []
    ensures InRange(xs[..|xs| - 1]) && Ordered(xs[..|xs| - 1])
    ensures EndOf(xs[..|xs| - 1]) <= xs[|xs| - 1].logicalBlockNumber
  {
  }

  lemma LastIsResized(xs: seq<Extent>, numberOfBlocks: nat)
    requires xs != [] && xs[|xs| - 1].IsSparse() && EndOf(xs) < numberOfBlocks
    ensures var last := xs[|xs| - 1];
            FillTail(xs, numberOfBlocks) ==
            xs[..|xs| - 1] + [last.(numberOfBlocks := U32(last.numberOfBlocks + (numberOfBlocks - EndOf(xs))))]
  {
    hide U32;
  }

  lemma ResizeSparse(init: seq<Extent>, last: Extent, length: nat, block: nat)
    requires InRange(init) && Ordered(init) && EndOf(init) <= last.logicalBlockNumber && last.IsSparse()
    ensures MapAt(init + [last.(numberOfBlocks := length)], block) == MapAt(init + [last], block)
  {
    hide FindExtent, MapAt, InRange, Ordered;
    MapSnoc(init, last, block);
    MapSnoc(init, last.(numberOfBlocks := length), block);
  }
}
