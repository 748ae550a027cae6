/** Short-form attribute tables written in the on-disk format, and what each end of a reading means. */
module AttributesTableFormat {
  import opened Integers
  import opened Bytes
  import opened Collections
  import opened AttributeValues
  import opened AttributeLayout
  import opened AttributesTable

  /** An attribute before its name gets a prefix. */
  datatype ShortEntry = ShortEntry(flags: byte, name: seq<byte>, value: seq<byte>) {
    predicate Valid() {
      |name| < 256 && |value| < 256 && FullName(flags, name).Some?
    }

    function Attribute(): Attribute
      requires Valid()
    {
      AttributeValues.Attribute(FullName(flags, name).value, |value|, value, 0)
    }

    function Format(): seq<byte>
      requires Valid()
    {
      [|name|, |value|, flags] + name + value
    }
  }

  ghost predicate AllValid(entries: seq<ShortEntry>) {
    forall e | e in entries :: e.Valid()
  }

  function FormatEntries(entries: seq<ShortEntry>): seq<byte>
    requires AllValid(entries)
  {
    if entries == [] then [] else entries[0].Format() + FormatEntries(entries[1..])
  }

  function Meaning(entries: seq<ShortEntry>): seq<Attribute>
    requires AllValid(entries)
  {
    if entries == [] then [] else [entries[0].Attribute()] + Meaning(entries[1..])
  }

  function FormatTable(entries: seq<ShortEntry>, unknown: byte): seq<byte>
    requires |entries| < 256 && AllValid(entries)
  {
    ToBE(4 + |FormatEntries(entries)|, 2) + [|entries|, unknown] + FormatEntries(entries)
  }

  /** The entries stand in the data, one after the other. */
  ghost predicate StandAt(data: seq<byte>, offset: nat, entries: seq<ShortEntry>) {
    && AllValid(entries) && offset + |FormatEntries(entries)| <= |data|
    && data[offset..offset + |FormatEntries(entries)|] == FormatEntries(entries)
  }

  /** Parsing takes entries from where they stand and goes on behind them. */
  lemma {:induction false} EntriesAreTaken(entries: seq<ShortEntry>, data: seq<byte>, offset: nat, n: nat)
    requires 4 <= offset && StandAt(data, offset, entries) && |entries| <= n
    ensures ParseEntries(data, offset, n) ==
            ParseEntries(data, offset + |FormatEntries(entries)|, n - |entries|).Behind(Meaning(entries))
    decreases |entries|
  {
    hide ParseEntries, ShortEntry.Valid, ShortEntry.Format, ShortEntry.Attribute, Outcome.Behind, Outcome.After;
    if entries == [] {
      BehindNothing(ParseEntries(data, offset, n));
    } else {
      var e := entries[0];
      var rest := FormatEntries(entries[1..]);
      assert e in entries;
      var end := offset + |FormatEntries(entries)|;
      assert data[offset..end] == e.Format() + rest;
      EntryFields(e, data, offset, end, rest);
      EntriesAreTaken(entries[1..], data, offset + |e.Format()|, n - 1);
      OneMoreEntry(e, data, offset, n - 1);
      AfterBehind(e.Attribute(), Meaning(entries[1..]), ParseEntries(data, end, n - |entries|));
    }
  }

  lemma AfterBehind(first: Attribute, found: seq<Attribute>, outcome: Outcome)
    ensures outcome.Behind(found).After(first) == outcome.Behind([first] + found)
  {
    if !outcome.Failed? {
      assert [first] + (found + outcome.attributes) == [first] + found + outcome.attributes;
    }
  }

  lemma NoEntries(data: seq<byte>, offset: nat)
    requires |data| >= 4
    ensures ParseEntries(data, offset, 0) == Read([])
  {
  }

  /** Parsing takes one entry from where it stands. */
  lemma OneMoreEntry(e: ShortEntry, data: seq<byte>, offset: nat, n: nat)
    requires e.Valid() && 4 <= offset && offset + 3 + |e.name| + |e.value| <= |data|
    requires data[offset] == |e.name| && data[offset + 1] == |e.value| && data[offset + 2] == e.flags
    requires data[offset + 3..offset + 3 + |e.name|] == e.name
    requires data[offset + 3 + |e.name|..offset + 3 + |e.name| + |e.value|] == e.value
    ensures ParseEntries(data, offset, n + 1) ==
            ParseEntries(data, offset + 3 + |e.name| + |e.value|, n).After(e.Attribute())
  {
    hide StoredName, FullName, Outcome.After;
    StoredNameIsFullName(e.flags, e.name);
  }

  lemma EntryFields(e: ShortEntry, data: seq<byte>, offset: nat, end: nat, rest: seq<byte>)
    requires e.Valid() && offset <= end <= |data| && data[offset..end] == e.Format() + rest
    ensures |e.Format()| == 3 + |e.name| + |e.value|
    ensures offset + |e.Format()| <= end && data[offset + |e.Format()|..end] == rest
    ensures data[offset] == |e.name| && data[offset + 1] == |e.value| && data[offset + 2] == e.flags
    ensures data[offset + 3..offset + 3 + |e.name|] == e.name
    ensures data[offset + 3 + |e.name|..offset + 3 + |e.name| + |e.value|] == e.value
  {
    hide StoredName;
    var bytes := e.Format();
    var tail := data[offset..end];
    assert tail[0] == bytes[0] && tail[1] == bytes[1] && tail[2] == bytes[2];
    assert tail[|bytes|..] == rest;
    assert tail[3..3 + |e.name|] == e.name;
    assert tail[3 + |e.name|..3 + |e.name| + |e.value|] == e.value;
    SliceOfSlice(data, offset, end, 3, |e.name|);
    SliceOfSlice(data, offset, end, 3 + |e.name|, |e.value|);
  }

  /** A table written in the format, of at most 64 KiB, is read as the attributes it was written
      from. */
  lemma ParseFormattedTable(entries: seq<ShortEntry>, unknown: byte, before: seq<Attribute>, after: seq<Attribute>,
                            status: Status)
    requires |entries| < 256 && AllValid(entries) && 4 + |FormatEntries(entries)| < TWO_16
    ensures Effect(FormatTable(entries, unknown), before, after, status) <==>
            status == Success && after == before + Meaning(entries)
  {
    hide ToBE, FormatEntries, Meaning, ParseEntries;
    var data := FormatTable(entries, unknown);
    assert data[0..2] == ToBE(|data|, 2);
    U16AtWritten(data, 0, |data|);
    assert data[4..|data|] == FormatEntries(entries);
    EntriesAreTaken(entries, data, 4, |entries|);
    NoEntries(data, |data|);
    BehindEnds(Meaning(entries));
  }

  // ---------- What each end of a reading means ----------

  /** The entry at an offset has a name that the reader accepts although it ends behind the data. */
  predicate StraysAt(data: seq<byte>, at: nat) {
    && at + 3 <= |data| && data[at] <= |data| - 3 && at + 3 + data[at] > |data|
    && data[at + 2] / 2 % 64 <= 2
  }

  /** The entries of a reading that did not fail, as they stand in the data. */
  lemma {:induction false} FrontOf(data: seq<byte>, offset: nat, n: nat) returns (front: seq<ShortEntry>)
    requires 4 <= offset <= |data| && !ParseEntries(data, offset, n).Failed?
    ensures StandAt(data, offset, front) && AllValid(front) && |front| <= n
    ensures var at := offset + |FormatEntries(front)|;
            match ParseEntries(data, offset, n)
            case Read(xs) => xs == Meaning(front) && |front| == n
            case Abandoned(xs) => xs == Meaning(front) && |front| < n && at + 3 > |data|
            case Strayed(xs) => xs == Meaning(front) && |front| < n && StraysAt(data, at)
            case Failed => true
    decreases n
  {
    hide StoredName, ShortEntry.Valid, ShortEntry.Format, ShortEntry.Attribute, ParseEntries, Prefix, StraysAt;
    hide AllValid, StandAt, FormatEntries, Meaning;
    if n == 0 || offset + 3 > |data| || offset + 3 + data[offset] > |data| {
      front := [];
      EmptyFront(data, offset);
      EndsAtOnce(data, offset, n);
    } else {
      var e := FirstEntry(data, offset, n);
      var more := FrontOf(data, offset + |e.Format()|, n - 1);
      front := [e] + more;
      FrontGrows(data, offset, e, more);
    }
  }

  lemma EmptyFront(data: seq<byte>, offset: nat)
    requires offset <= |data|
    ensures StandAt(data, offset, []) && AllValid([]) && FormatEntries([]) == [] && Meaning([]) == []
  {
  }

  lemma EndsAtOnce(data: seq<byte>, offset: nat, n: nat)
    requires 4 <= offset <= |data| && !ParseEntries(data, offset, n).Failed?
    requires n == 0 || offset + 3 > |data| || offset + 3 + data[offset] > |data|
    ensures match ParseEntries(data, offset, n)
            case Read(xs) => xs == [] && n == 0
            case Abandoned(xs) => xs == [] && n > 0 && offset + 3 > |data|
            case Strayed(xs) => xs == [] && n > 0 && StraysAt(data, offset)
            case Failed => true
  {
  }

  /** The entry that a successful step takes. */
  lemma FirstEntry(data: seq<byte>, offset: nat, n: nat) returns (e: ShortEntry)
    requires 4 <= offset && n > 0 && offset + 3 <= |data| && offset + 3 + data[offset] <= |data|
    requires !ParseEntries(data, offset, n).Failed?
    ensures e.Valid() && offset + |e.Format()| <= |data| && data[offset..offset + |e.Format()|] == e.Format()
    ensures ParseEntries(data, offset, n) == ParseEntries(data, offset + |e.Format()|, n - 1).After(e.Attribute())
  {
    hide StoredName, FullName, Outcome.After;
    var nameOffset := offset + 3;
    var valueOffset := nameOffset + data[offset];
    e := ShortEntry(data[offset + 2], data[nameOffset..valueOffset], data[valueOffset..valueOffset + data[offset + 1]]);
    StoredNameIsFullName(e.flags, e.name);
  }

  lemma FrontGrows(data: seq<byte>, offset: nat, e: ShortEntry, more: seq<ShortEntry>)
    requires e.Valid() && offset + |e.Format()| <= |data| && data[offset..offset + |e.Format()|] == e.Format()
    requires StandAt(data, offset + |e.Format()|, more) && AllValid(more)
    ensures StandAt(data, offset, [e] + more) && AllValid([e] + more)
            && Meaning([e] + more) == [e.Attribute()] + Meaning(more)
    ensures |FormatEntries([e] + more)| == |e.Format()| + |FormatEntries(more)|
  {
    hide ShortEntry.Valid, ShortEntry.Format, ShortEntry.Attribute;
    assert ([e] + more)[1..] == more;
    var middle := offset + |e.Format()|;
    assert data[offset..middle + |FormatEntries(more)|] == data[offset..middle]
           + data[middle..middle + |FormatEntries(more)|];
  }

  /** For every table: it is read as certain attributes exactly when as many valid entries as it claims
      stand at its front and mean them; the reading is abandoned exactly when the data ends before or in
      the fixed part of a further entry; and it strays exactly when the name of a further entry, with
      flags that select a prefix, is no larger than the data and ends behind it. */
  lemma OutcomeExactly(data: seq<byte>, offset: nat, n: nat, xs: seq<Attribute>)
    requires 4 <= offset <= |data|
    ensures ParseEntries(data, offset, n) == Read(xs) <==>
            exists front :: StandAt(data, offset, front) && |front| == n && Meaning(front) == xs
    ensures ParseEntries(data, offset, n) == Abandoned(xs) <==>
            exists front :: StandAt(data, offset, front) && |front| < n && Meaning(front) == xs
                            && offset + |FormatEntries(front)| + 3 > |data|
    ensures ParseEntries(data, offset, n) == Strayed(xs) <==>
            exists front :: StandAt(data, offset, front) && |front| < n && Meaning(front) == xs
                            && StraysAt(data, offset + |FormatEntries(front)|)
  {
    hide ParseEntries, FormatEntries, Meaning, StraysAt, Outcome.Behind;
    if !ParseEntries(data, offset, n).Failed? {
      var front := FrontOf(data, offset, n);
    }
    forall front | StandAt(data, offset, front) && |front| <= n
      ensures |front| == n ==> ParseEntries(data, offset, n) == Read(Meaning(front))
      ensures var at := offset + |FormatEntries(front)|;
              && (|front| < n && at + 3 > |data| ==> ParseEntries(data, offset, n) == Abandoned(Meaning(front)))
              && (|front| < n && StraysAt(data, at) ==> ParseEntries(data, offset, n) == Strayed(Meaning(front)))
    {
      EntriesAreTaken(front, data, offset, n);
      WhatEnds(data, offset + |FormatEntries(front)|, n - |front|);
      BehindEnds(Meaning(front));
    }
  }

  lemma WhatEnds(data: seq<byte>, at: nat, n: nat)
    requires |data| >= 4
    ensures n == 0 ==> ParseEntries(data, at, n) == Read([])
    ensures n > 0 && at + 3 > |data| ==> ParseEntries(data, at, n) == Abandoned([])
    ensures n > 0 && StraysAt(data, at) ==> ParseEntries(data, at, n) == Strayed([])
  {
  }

  /** A table that is too short, or whose size is smaller than its header or larger than the data, is
      refused; only one of two or three bytes empties the array. */
  lemma HeaderIsRefused(data: seq<byte>, before: seq<Attribute>, after: seq<Attribute>, status: Status)
    requires |data| < 4 || (data[0] as nat) * 0x100 + data[1] < 4 || (data[0] as nat) * 0x100 + data[1] > |data|
    ensures Effect(data, before, after, status) <==>
            status == Failure && after == if 2 <= |data| < 4 then [] else before
  {
    FieldValues(data, 0);
    hide U16At, ParseEntries;
  }

  /** Otherwise the number of entries is the third byte, and the entries start at the fifth. */
  lemma TableIsItsEntries(data: seq<byte>, before: seq<Attribute>, after: seq<Attribute>, status: Status)
    requires |data| >= 4 && 4 <= (data[0] as nat) * 0x100 + data[1] <= |data|
    ensures Effect(data, before, after, status) <==>
            match ParseEntries(data, 4, data[2])
            case Read(xs) => status == Success && after == before + xs
            case Failed => status == Failure && after == []
            case Abandoned(xs) => status == Failure && after == before + xs
            case Strayed(xs) => status == OutOfData && after == before + xs
  {
    FieldValues(data, 0);
    hide U16At, ParseEntries;
  }

  /** A table of seven bytes whose only name would end four bytes behind it: the size of the name is
      no larger than the table without its three bytes, so the reading goes on behind the table. */
  lemma NameBehindTheTable(before: seq<Attribute>, after: seq<Attribute>, status: Status)
    ensures Effect([0, 7, 1, 0, 4, 0, 0], before, after, status) <==> status == OutOfData && after == before
  {
    var data: seq<byte> := [0, 7, 1, 0, 4, 0, 0];
    SevenBytes(data);
    assert ParseEntries(data, 4, 1) == Strayed([]);
    assert before + [] == before;
  }

  /** The same table with flags that select no prefix fails, and never leaves the data. */
  lemma UnknownPrefixBehindTheTable(before: seq<Attribute>, after: seq<Attribute>, status: Status)
    ensures Effect([0, 7, 1, 0, 4, 0, 6], before, after, status) <==> status == Failure && after == []
  {
    var data: seq<byte> := [0, 7, 1, 0, 4, 0, 6];
    SevenBytes(data);
    assert ParseEntries(data, 4, 1) == Failed;
  }

  lemma SevenBytes(data: seq<byte>)
    requires |data| >= 2 && data[..2] == [0, 7]
    ensures U16At(data, 0) == 7
  {
    assert data[0..2] == ToBE(7, 2) by {
      assert ToBE(7, 2) == ToBE(0, 1) + [7];
      assert ToBE(0, 1) == [0];
    }
    U16AtWritten(data, 0, 7);
  }
}
