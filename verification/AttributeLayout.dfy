/** What the flags of an attribute mean on disk, spelled out on its own, and that the readers agree. */
module AttributeLayout {
  import opened Integers
  import opened Collections
  import AttributeValues

  /** The name by which an attribute is known: bits 1 to 6 of the flags put it in the name space user,
      trusted or secure, and it ends with a zero. An empty name stays empty. */
  function FullName(flags: byte, name: seq<byte>): Option<seq<byte>> {
    if name == [] then Some([])
    else
      match flags / 2 % 64
      case 0 => Some([0x75, 0x73, 0x65, 0x72, 0x2e] + name + [0])
      case 1 => Some([0x74, 0x72, 0x75, 0x73, 0x74, 0x65, 0x64, 0x2e] + name + [0])
      case 2 => Some([0x73, 0x65, 0x63, 0x75, 0x72, 0x65, 0x2e] + name + [0])
      case _ => None
  }

  /** The stored name is the full name, for all flags and names. */
  lemma StoredNameIsFullName(flags: byte, name: seq<byte>)
    ensures AttributeValues.StoredName(flags, name) == FullName(flags, name)
  {
    assert AttributeValues.NamespaceOf(flags) == flags / 2 % 64 * 2;
  }

  /** Flags that leave a name without a prefix. */
  lemma PrefixExactly(flags: byte)
    ensures AttributeValues.Prefix(flags).Some? <==> flags / 2 % 64 <= 2
  {
    assert AttributeValues.NamespaceOf(flags) == flags / 2 % 64 * 2;
  }
}
