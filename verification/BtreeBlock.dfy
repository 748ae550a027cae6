/** Blocks of a B+ tree: a header whose size depends on version and width, then the records. */
module BtreeBlock {
  import opened Integers
  import opened Bytes
  import opened Collections
  import opened IoHandles

  datatype Header = Header(signature: seq<byte>, level: nat, numberOfRecords: nat)

  function HeaderSize(formatVersion: int, blockNumberDataSize: nat): nat {
    if formatVersion == 5 then (if blockNumberDataSize == 8 then 72 else 56)
    else (if blockNumberDataSize == 8 then 24 else 16)
  }

  /** What a block of the given width holds, if it is large enough for its header. */
  function Parse(io: IoHandle, blockNumberDataSize: nat, data: seq<byte>): Option<(Header, seq<byte>)> {
    var size := HeaderSize(io.formatVersion, blockNumberDataSize);
    if blockNumberDataSize in {4, 8} && |data| >= size
    then Some((Header(data[..4], U16At(data, 4), U16At(data, 6)), data[size..]))
    else None
  }

  class Block {
    const blockNumberDataSize: nat
    var header: Option<Header>
    var recordsData: seq<byte>

    constructor (blockNumberDataSize: nat)
      ensures this.blockNumberDataSize == blockNumberDataSize && header == None && recordsData == []
    {
      this.blockNumberDataSize, header, recordsData := blockNumberDataSize, None, [];
    }

    method ReadData(io: IoHandle, data: seq<byte>) returns (ok: bool)
      modifies this
      ensures ok <==> old(header) == None && Parse(io, blockNumberDataSize, data).Some?
      ensures ok ==> header == Some(Parse(io, blockNumberDataSize, data).value.0)
      ensures ok ==> recordsData == Parse(io, blockNumberDataSize, data).value.1
      ensures !ok ==> header == old(header) && recordsData == old(recordsData)
    {
      if header != None {
        return false;
      }
      var headerDataSize := HeaderSize(io.formatVersion, blockNumberDataSize);
      if |data| < headerDataSize {
        return false;
      }
      if blockNumberDataSize != 4 && blockNumberDataSize != 8 {
        return false;
      }
      header := Some(Header(data[..4], U16At(data, 4), U16At(data, 6)));
      recordsData := data[headerDataSize..];
      ok := true;
    }

    method ReadFile(io: IoHandle, file: File, offset: int) returns (ok: bool)
      modifies this
      ensures var data := ReadAt(file, offset, io.blockSize);
              && ok == (old(header) == None && data.Some? && Parse(io, blockNumberDataSize, data.value).Some?)
              && (ok ==> header == Some(Parse(io, blockNumberDataSize, data.value).value.0))
              && (ok ==> recordsData == Parse(io, blockNumberDataSize, data.value).value.1)
              && (!ok ==> header == old(header) && recordsData == old(recordsData))
    {
      var data := ReadAt(file, offset, io.blockSize);
      if data.None? {
        return false;
      }
      ok := ReadData(io, data.value);
    }
  }

  /** The layout of a block: signature, level, number of records, the links to neighbours and
      whatever else the version's header holds, then the records. */
  function Format(header: Header, links: seq<byte>, records: seq<byte>): seq<byte>
    requires |header.signature| == 4
  {
    header.signature + ToBE(header.level, 2) + ToBE(header.numberOfRecords, 2) + links + records
  }

  /** The size of everything in front of the records. */
  function HeaderBytes(version5: bool, width: nat): nat {
    match (version5, width)
    case (true, 8) => 72
    case (true, _) => 56
    case (false, 8) => 24
    case (false, _) => 16
  }

  /** A block is split into a header and records exactly when it is laid out of them, for one of the two
      widths and with a header of the size that version and width give. */
  lemma ParseExactly(io: IoHandle, blockNumberDataSize: nat, data: seq<byte>, header: Header, records: seq<byte>)
    ensures Parse(io, blockNumberDataSize, data) == Some((header, records)) <==>
            && blockNumberDataSize in {4, 8}
            && |header.signature| == 4 && header.level < 0x1_0000 && header.numberOfRecords < 0x1_0000
            && exists links :: 8 + |links| == HeaderBytes(io.formatVersion == 5, blockNumberDataSize)
                               && data == Format(header, links, records)
  {
    hide Format, U16At;
    if Parse(io, blockNumberDataSize, data) == Some((header, records)) {
      var size := HeaderBytes(io.formatVersion == 5, blockNumberDataSize);
      assert 8 + |data[8..size]| == size;
      Split(data, size);
    }
    forall links | |header.signature| == 4 && data == Format(header, links, records)
                   && blockNumberDataSize in {4, 8} && header.level < 0x1_0000 && header.numberOfRecords < 0x1_0000
                   && 8 + |links| == HeaderBytes(io.formatVersion == 5, blockNumberDataSize)
      ensures Parse(io, blockNumberDataSize, data) == Some((header, records))
    {
      ParseFormat(io, blockNumberDataSize, header, links, records);
    }
  }

  lemma Split(data: seq<byte>, size: nat)
    requires 8 <= size <= |data|
    ensures data == Format(Header(data[..4], U16At(data, 4), U16At(data, 6)), data[8..size], data[size..])
  {
    U16AtBytes(data, 4);
    U16AtBytes(data, 6);
    hide ToBE, U16At;
  }

  lemma ParseFormat(io: IoHandle, blockNumberDataSize: nat, header: Header, links: seq<byte>, records: seq<byte>)
    requires blockNumberDataSize in {4, 8}
    requires |header.signature| == 4 && header.level < TWO_16 && header.numberOfRecords < TWO_16
    requires 8 + |links| == HeaderBytes(io.formatVersion == 5, blockNumberDataSize)
    ensures Parse(io, blockNumberDataSize, Format(header, links, records)) == Some((header, records))
  {
    var data := Format(header, links, records);
    assert data[..4] == header.signature;
    assert data[4..6] == ToBE(header.level, 2);
    assert data[6..8] == ToBE(header.numberOfRecords, 2);
    U16AtWritten(data, 4, header.level);
    U16AtWritten(data, 6, header.numberOfRecords);
    assert data[HeaderSize(io.formatVersion, blockNumberDataSize)..] == records;
  }
}
