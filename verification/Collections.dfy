/** The growable array that every reader fills (libcdata array), and result types. */
module Collections {

  datatype Option<+T> = None | Some(value: T)

  /** What was found so far in front of what the rest yields, if it yields anything. */
  function Prepend<T>(found: seq<T>, rest: Option<seq<T>>): Option<seq<T>> {
    if rest.Some? then Some(found + rest.value) else None
  }

  lemma PrependNothing<T>(rest: Option<seq<T>>)
    ensures Prepend([], rest) == rest
  {
    if rest.Some? {
      assert [] + rest.value == rest.value;
    }
  }

  lemma PrependTwice<T>(a: seq<T>, b: seq<T>, rest: Option<seq<T>>)
    ensures Prepend(a, Prepend(b, rest)) == Prepend(a + b, rest)
  {
    if rest.Some? {
      assert a + (b + rest.value) == a + b + rest.value;
    }
  }

  lemma PrependNone<T>(found: seq<T>)
    ensures Prepend(found, None) == None
  {
  }

  lemma PrependEnd<T>(found: seq<T>)
    ensures Prepend(found, Some([])) == Some(found)
  {
    assert found + [] == found;
  }

  class CArray<T> {
    var entries: seq<T>

    constructor ()
      ensures entries == []
    {
      entries := [];
    }

    method Append(entry: T)
      modifies this
      ensures entries == old(entries) + [entry]
    {
      entries := entries + [entry];
    }

    method Empty()
      modifies this
      ensures entries == []
    {
      entries := [];
    }
  }
}
