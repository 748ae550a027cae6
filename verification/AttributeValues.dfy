/** The values of one extended attribute. */
module AttributeValues {
  import opened Integers
  import opened Collections

  const MEMORY_MAXIMUM_ALLOCATION_SIZE: nat := 128 * 1024 * 1024

  /** A name with its prefix and terminator, and value data or the block of a remote value. */
  datatype Attribute = Attribute(name: seq<byte>, valueDataSize: nat, valueData: seq<byte>, valueDataBlock: nat)

  const USER_PREFIX: seq<byte> := [0x75, 0x73, 0x65, 0x72, 0x2e]
  const TRUSTED_PREFIX: seq<byte> := [0x74, 0x72, 0x75, 0x73, 0x74, 0x65, 0x64, 0x2e]
  const SECURE_PREFIX: seq<byte> := [0x73, 0x65, 0x63, 0x75, 0x72, 0x65, 0x2e]

  /** Bits 1 to 6 of the flags select the prefix. */
  function NamespaceOf(flags: byte): nat {
    flags % 128 - flags % 2
  }

  function Prefix(flags: byte): Option<seq<byte>> {
    if NamespaceOf(flags) == 0 then Some(USER_PREFIX)
    else if NamespaceOf(flags) == 2 then Some(TRUSTED_PREFIX)
    else if NamespaceOf(flags) == 4 then Some(SECURE_PREFIX)
    else None
  }

  /** The name as it is kept: nothing for an empty name, else prefix, name and terminator. */
  function StoredName(flags: byte, name: seq<byte>): Option<seq<byte>> {
    if name == [] then Some([])
    else if Prefix(flags).None? then None
    else Some(Prefix(flags).value + name + [0])
  }

  /** Two names of the same namespace, and names of different namespaces, never become the same. */
  lemma StoredNameInjective(flags1: byte, name1: seq<byte>, flags2: byte, name2: seq<byte>)
    requires name1 != [] && name2 != []
    requires StoredName(flags1, name1).Some? && StoredName(flags1, name1) == StoredName(flags2, name2)
    ensures NamespaceOf(flags1) == NamespaceOf(flags2) && name1 == name2
  {
    var p1, p2 := Prefix(flags1).value, Prefix(flags2).value;
    var stored := p1 + name1 + [0];
    assert stored[0] == p1[0] && stored[0] == (p2 + name2 + [0])[0] == p2[0];
    assert p1 == p2;
    assert name1 == stored[|p1|..|stored| - 1] == (p2 + name2 + [0])[|p2|..|stored| - 1] == name2;
  }

  class Values {
    var name: seq<byte>
    var valueDataSize: nat
    var valueData: seq<byte>
    var valueDataBlock: nat

    constructor ()
      ensures Value() == Attribute([], 0, [], 0)
    {
      name, valueDataSize, valueData, valueDataBlock := [], 0, [], 0;
    }

    function Value(): Attribute
      reads this
    {
      Attribute(name, valueDataSize, valueData, valueDataBlock)
    }

    method SetName(raw: seq<byte>, flags: byte) returns (ok: bool)
      modifies this
      ensures ok <==> old(name) == [] && 1 <= |raw| <= 255 && Prefix(flags).Some?
      ensures Value() == if ok then old(Value()).(name := Prefix(flags).value + raw + [0]) else old(Value())
    {
      if name != [] {
        return false;
      }
      if |raw| == 0 || |raw| > 255 {
        return false;
      }
      var prefix: seq<byte>;
      var selector := NamespaceOf(flags);
      if selector == 0 {
        prefix := USER_PREFIX;
      } else if selector == 2 {
        prefix := TRUSTED_PREFIX;
      } else if selector == 4 {
        prefix := SECURE_PREFIX;
      } else {
        return false;
      }
      name := prefix + raw + [0];
      ok := true;
    }

    method SetValueData(data: seq<byte>) returns (ok: bool)
      modifies this
      ensures ok <==> old(valueData) == [] && 1 <= |data| <= 0x800_0000
      ensures Value() == if ok then old(Value()).(valueData := data, valueDataSize := |data|) else old(Value())
    {
      if valueData != [] {
        return false;
      }
      if |data| == 0 || |data| > MEMORY_MAXIMUM_ALLOCATION_SIZE {
        return false;
      }
      valueData := data;
      valueDataSize := |data|;
      ok := true;
    }
  }
}
