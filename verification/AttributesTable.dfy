/** Short-form attributes: a table inside the inode. */
module AttributesTable {
  import opened Integers
  import opened Bytes
  import opened Collections
  import opened AttributeValues

  /** How a reading ends: with all attributes; by a failure that empties the array; by a return from
      the middle that leaves the attributes read so far in it; or by straying out of the data, from
      where on the data does not determine what happens. */
  datatype Outcome =
    | Read(attributes: seq<Attribute>)
    | Failed
    | Abandoned(attributes: seq<Attribute>)
    | Strayed(attributes: seq<Attribute>)
  {
    function After(first: Attribute): Outcome {
      match this
      case Read(rest) => Read([first] + rest)
      case Failed => Failed
      case Abandoned(rest) => Abandoned([first] + rest)
      case Strayed(rest) => Strayed([first] + rest)
    }

    function Behind(found: seq<Attribute>): Outcome {
      match this
      case Read(rest) => Read(found + rest)
      case Failed => Failed
      case Abandoned(rest) => Abandoned(found + rest)
      case Strayed(rest) => Strayed(found + rest)
    }
  }

  /** What a caller is told, unless the reading strays out of the data. */
  datatype Status = Success | Failure | OutOfData

  /** The next n entries from an offset on. */
  function ParseEntries(data: seq<byte>, offset: nat, n: nat): Outcome
    requires |data| >= 4
    decreases n
  {
    if n == 0 then Read([])
    else if offset + 3 > |data| then Abandoned([])
    else
      var nameSize, valueSize, flags := data[offset], data[offset + 1], data[offset + 2];
      if nameSize > |data| - 3 then Failed
      else
        var nameOffset := offset + 3;
        var valueOffset := nameOffset + nameSize;
        if valueOffset > |data| then (if Prefix(flags).None? then Failed else Strayed([]))
        else
          var name := StoredName(flags, data[nameOffset..valueOffset]);
          if name.None? || valueSize > |data| - valueOffset then Failed
          else
            var attribute := Attribute(name.value, valueSize, data[valueOffset..valueOffset + valueSize], 0);
            ParseEntries(data, valueOffset + valueSize, n - 1).After(attribute)
  }

  /** The result of reading a table and what it makes of an array. */
  predicate Effect(data: seq<byte>, before: seq<Attribute>, after: seq<Attribute>, status: Status) {
    if |data| < 2 then status == Failure && after == before
    else if |data| < 4 then status == Failure && after == []
    else if !(4 <= U16At(data, 0) <= |data|) then status == Failure && after == before
    else
      match ParseEntries(data, 4, data[2])
      case Read(xs) => status == Success && after == before + xs
      case Failed => status == Failure && after == []
      case Abandoned(xs) => status == Failure && after == before + xs
      case Strayed(xs) => status == OutOfData && after == before + xs
  }

  /** Reads a table up to its end, or to where the reading leaves the data: each name size is only
      compared with the size of the whole table. Flags that select no prefix are refused before any of
      the name is read. */
  method ReadData(data: seq<byte>, attributes: CArray<Attribute>) returns (status: Status)
    modifies attributes
    ensures Effect(data, old(attributes.entries), attributes.entries, status)
  {
    hide Outcome.After, Outcome.Behind, U16At, StoredName, Prefix;
    if |data| < 2 {
      return Failure;
    }
    if |data| < 4 {
      attributes.Empty();
      return Failure;
    }
    var headerDataSize, numberOfEntries := U16At(data, 0), data[2];
    if headerDataSize < 4 || headerDataSize > |data| {
      return Failure;
    }
    var dataOffset: nat := 4;
    ghost var all := ParseEntries(data, 4, numberOfEntries);
    ghost var found: seq<Attribute> := [];
    BehindNothing(all);
    for attributeIndex := 0 to numberOfEntries
      invariant attributes.entries == old(attributes.entries) + found
      invariant all == ParseEntries(data, dataOffset, numberOfEntries - attributeIndex).Behind(found)
    {
      BehindEnds(found);
      if dataOffset > |data| - 3 {
        return Failure;
      }
      var nameSize: nat := data[dataOffset];
      if nameSize > |data| - 3 {
        attributes.Empty();
        return Failure;
      }
      var valueDataSize: nat, flags := data[dataOffset + 1], data[dataOffset + 2];
      dataOffset := dataOffset + 3;
      if dataOffset + nameSize > |data| {
        if Prefix(flags).None? {
          attributes.Empty();
          return Failure;
        }
        return OutOfData;
      }
      var attribute := ReadEntry(data, dataOffset, nameSize, valueDataSize, flags);
      if attribute.None? {
        attributes.Empty();
        return Failure;
      }
      dataOffset := dataOffset + nameSize + valueDataSize;
      attributes.Append(attribute.value);
      BehindAfter(found, attribute.value, ParseEntries(data, dataOffset, numberOfEntries - attributeIndex - 1));
      found := found + [attribute.value];
    }
    BehindEnds(found);
    status := Success;
  }

  /** Fills the values of one attribute from its name and the value behind it. */
  method ReadEntry(data: seq<byte>, nameOffset: nat, nameSize: nat, valueSize: nat, flags: byte)
    returns (attribute: Option<Attribute>)
    requires nameOffset + nameSize <= |data| && nameSize < 256 && valueSize < 256
    ensures var valueOffset := nameOffset + nameSize;
            var name := StoredName(flags, data[nameOffset..valueOffset]);
            attribute == if name.None? || valueSize > |data| - valueOffset then None
                         else Some(Attribute(name.value, valueSize, data[valueOffset..valueOffset + valueSize], 0))
  {
    hide Prefix;
    var values := new Values();
    ghost var name := data[nameOffset..nameOffset + nameSize];
    assert |name| == nameSize;
    if nameSize > 0 {
      var named := values.SetName(data[nameOffset..nameOffset + nameSize], flags);
      if !named {
        return None;
      }
    }
    var valueOffset := nameOffset + nameSize;
    if valueSize > |data| - valueOffset {
      return None;
    }
    ghost var value := data[valueOffset..valueOffset + valueSize];
    assert |value| == valueSize;
    if valueSize > 0 {
      var stored := values.SetValueData(data[valueOffset..valueOffset + valueSize]);
      assert stored;
    }
    assert values.Value() == Attribute(values.name, valueSize, value, 0);
    attribute := Some(values.Value());
  }

  lemma BehindNothing(outcome: Outcome)
    ensures outcome.Behind([]) == outcome
  {
    if !outcome.Failed? {
      assert [] + outcome.attributes == outcome.attributes;
    }
  }

  lemma BehindEnds(found: seq<Attribute>)
    ensures Read([]).Behind(found) == Read(found)
    ensures Failed.Behind(found) == Failed
    ensures Abandoned([]).Behind(found) == Abandoned(found)
    ensures Strayed([]).Behind(found) == Strayed(found)
  {
    assert found + [] == found;
  }

  lemma BehindAfter(found: seq<Attribute>, first: Attribute, outcome: Outcome)
    ensures outcome.After(first).Behind(found) == outcome.Behind(found + [first])
  {
    if !outcome.Failed? {
      assert found + ([first] + outcome.attributes) == found + [first] + outcome.attributes;
    }
  }
}
