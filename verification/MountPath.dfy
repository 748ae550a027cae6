/**
 Names of file entries as path components of the mount point: an escaping printer, an unescaping
 parser, and the hexadecimal numbers they share.
 */
module MountPath {
  import opened Integers
  import opened Collections
  import opened UnicodeCodecs

  const SSIZE_MAX: int := 0x7fff_ffff_ffff_ffff

  /** The separator of file entry paths. */
  const FILE_ENTRY_SEPARATOR: nat := 0x2f

  datatype Platform = Posix | Windows {
    function Escape(): nat {
      if Windows? then 0x5e else 0x5c
    }

    function Separator(): nat {
      if Windows? then 0x5c else 0x2f
    }

    /** The size of a system character in bytes. */
    function UnitSize(): nat {
      if Windows? then 2 else 1
    }

    /** The characters < > : " / | ? and *, which Windows reserves. */
    predicate IsReserved(c: nat) {
      Windows? && c in {0x3c, 0x3e, 0x3a, 0x22, 0x2f, 0x7c, 0x3f, 0x2a}
    }

    /** The printer writes the code point as escape, x and two digits. */
    predicate PrintsShort(c: nat) {
      c <= 0x1f || c == Separator() || IsReserved(c) || 0x7f <= c <= 0x9f
    }

    /** The parser accepts the value after escape and x. */
    predicate AcceptsShort(v: nat) {
      0x01 <= v <= 0x1f || v == Separator() || IsReserved(v) || 0x7f <= v <= 0x9f
    }

    predicate IsShortMark(u: nat) {
      u == 0x78 || (Windows? && u == 0x58)
    }

    predicate IsLongMark(u: nat) {
      u == 0x55 || (Windows? && u == 0x75)
    }
  }

  const SHORT_MARK: nat := 0x78
  const LONG_MARK: nat := 0x55

  /** Surrogates, undefined and unprintable code points: written and accepted as escape, U and eight
      digits. */
  predicate IsLong(c: nat) {
    0x2028 <= c <= 0x2029 || 0xd800 <= c <= 0xdfff || c == 0xe000 || c == 0xf8ff || 0xfdd0 <= c <= 0xfddf ||
    c % 0x1_0000 >= 0xfffe || c == 0xf_0000 || c == 0xf_fffd || c == 0x10_0000 || c >= 0x10_fffd
  }

  // ---------- Hexadecimal numbers ----------

  function Pow16(n: nat): (r: nat)
    ensures r > 0
  {
    if n == 0 then 1 else 16 * Pow16(n - 1)
  }

  function HexDigit(d: nat): nat {
    if d < 10 then 0x30 + d else 0x61 + d - 10
  }

  /** The digits of a number, padded with zeros to the given length. */
  function PrintHex(v: nat, n: nat): (digits: seq<nat>)
    ensures |digits| == n
  {
    if n == 0 then [] else PrintHex(v / 16, n - 1) + [HexDigit(v % 16)]
  }

  function DigitValue(platform: Platform, u: nat): Option<nat> {
    if 0x30 <= u <= 0x39 then Some(u - 0x30)
    else if platform.Windows? && 0x41 <= u <= 0x46 then Some(u - 0x41 + 10)
    else if 0x61 <= u <= 0x66 then Some(u - 0x61 + 10)
    else None
  }

  /** The value of a string of digits, in 32-bit arithmetic. */
  function ParseHex(platform: Platform, s: seq<nat>): Option<nat> {
    if s == [] then Some(0)
    else
      match (ParseHex(platform, s[..|s| - 1]), DigitValue(platform, s[|s| - 1]))
      case (Some(v), Some(d)) => Some(U32(v * 16 + d))
      case _ => None
  }

  method CopyHexadecimalToInteger(platform: Platform, s: seq<nat>) returns (value: Option<nat>)
    ensures value == if 0 < |s| <= 0x7fff_ffff_ffff_ffff then ParseHex(platform, s) else None
  {
    hide DigitValue;
    if |s| == 0 || |s| > SSIZE_MAX {
      return None;
    }
    var safe := 0;
    for index := 0 to |s|
      invariant ParseHex(platform, s[..index]) == Some(safe)
    {
      assert s[..index + 1][..index] == s[..index];
      safe := U32(safe * 16);
      var digit := DigitValue(platform, s[index]);
      if digit.None? {
        NotHex(platform, s, index);
        return None;
      }
      DigitBound(platform, s[index]);
      ShiftAndOr(ParseHex(platform, s[..index]).value, digit.value);
      safe := safe + digit.value;
    }
    assert s[..|s|] == s;
    value := Some(safe);
  }

  lemma DigitBound(platform: Platform, u: nat)
    ensures DigitValue(platform, u).Some? ==> DigitValue(platform, u).value < 16
  {
  }

  /** Putting four bits into the freed low bits is an addition. */
  lemma ShiftAndOr(v: nat, d: nat)
    requires d < 16
    ensures U32(v * 16) + d == U32(v * 16 + d)
  {
    var w := v % 0x1000_0000;
    assert v == v / 0x1000_0000 * 0x1000_0000 + w;
    assert v * 16 == v / 0x1000_0000 * 0x1_0000_0000 + w * 16;
    DivModUnique(v * 16, 0x1_0000_0000, v / 0x1000_0000, w * 16);
    DivModUnique(v * 16 + d, 0x1_0000_0000, v / 0x1000_0000, w * 16 + d);
  }

  lemma {:induction false} NotHex(platform: Platform, s: seq<nat>, index: nat)
    requires index < |s| && DigitValue(platform, s[index]).None?
    ensures ParseHex(platform, s).None?
    decreases |s|
  {
    if index < |s| - 1 {
      NotHex(platform, s[..|s| - 1], index);
    }
  }

  /** The parser inverts the printer for every number that has so many digits, up to 32 bits. */
  lemma {:induction false} ParsePrintHex(platform: Platform, v: nat, n: nat)
    requires v < Pow16(n) && v < TWO_32
    ensures ParseHex(platform, PrintHex(v, n)) == Some(v)
  {
    if n > 0 {
      ParsePrintHex(platform, v / 16, n - 1);
      assert PrintHex(v, n)[..n - 1] == PrintHex(v / 16, n - 1);
      assert v == v / 16 * 16 + v % 16;
    }
  }

  lemma HexLengths()
    ensures Pow16(2) == 0x100 && Pow16(8) == TWO_32
  {
    assert Pow16(4) == 0x1_0000;
    assert Pow16(6) == 0x100_0000;
  }

  lemma {:induction false} HexIsPlain(v: nat, n: nat)
    ensures forall u | u in PrintHex(v, n) :: 0x30 <= u <= 0x39 || 0x61 <= u <= 0x66
  {
    if n > 0 {
      HexIsPlain(v / 16, n - 1);
    }
  }

  // ---------- The printer ----------

  /** The code points that are written for a code point. */
  function EscapePoints(platform: Platform, c: nat): seq<nat> {
    if platform.PrintsShort(c) then [platform.Escape(), SHORT_MARK] + PrintHex(c, 2)
    else if IsLong(c) then [platform.Escape(), LONG_MARK] + PrintHex(c, 8)
    else if c == platform.Escape() then [platform.Escape(), platform.Escape()]
    else [c]
  }

  /** The units that are written for a code point. */
  function EscapeUnits(platform: Platform, codec: Codec, c: nat): Option<seq<nat>> {
    if platform.PrintsShort(c) || IsLong(c) || c == platform.Escape() then Some(EscapePoints(platform, c))
    else codec.encode(c)
  }

  /** The units that are written for a name from an index on, up to its end or a zero. */
  function EscapeFrom(platform: Platform, codec: Codec, name: seq<nat>, i: nat): Option<seq<nat>>
    requires codec.Lawful()
    decreases |name| - i
  {
    if i >= |name| then Some([])
    else
      codec.DecodeForward(name, i);
      match codec.decode(name, i)
      case None => None
      case Some((c, next)) =>
        if c == 0 then Some([])
        else
          match EscapeUnits(platform, codec, c)
          case None => None
          case Some(units) => Prepend(units, EscapeFrom(platform, codec, name, next))
  }

  /** Prints units into a buffer like snprintf: as many as fit in front of a terminator. */
  method Print(buffer: array<nat>, index: nat, units: seq<nat>) returns (count: nat)
    requires index < buffer.Length
    modifies buffer
    ensures count == |units|
    ensures index + |units| < buffer.Length ==> buffer[..index + |units|] == old(buffer[..index]) + units
  {
    var written := if index + |units| < buffer.Length then |units| else buffer.Length - index - 1;
    forall k | 0 <= k < written {
      buffer[index + k] := units[k];
    }
    buffer[index + written] := 0;
    count := |units|;
  }

  /** Puts the units of a code point into a buffer, if it has an encoding and there is room. */
  method Put(codec: Codec, buffer: array<nat>, index: nat, c: nat) returns (next: Option<nat>)
    requires index <= buffer.Length
    modifies buffer
    ensures next.Some? <==> codec.encode(c).Some? && index + |codec.encode(c).value| <= buffer.Length
    ensures next.Some? ==> next.value == index + |codec.encode(c).value|
                           && buffer[..next.value] == old(buffer[..index]) + codec.encode(c).value
  {
    var units := codec.encode(c);
    if units.None? || index + |units.value| > buffer.Length {
      return None;
    }
    forall k | 0 <= k < |units.value| {
      buffer[index + k] := units.value[k];
    }
    next := Some(index + |units.value|);
  }

  /** No printed code point is longer than ten units. */
  lemma EscapedWidth(platform: Platform, codec: Codec, c: nat)
    requires codec.Lawful()
    ensures EscapeUnits(platform, codec, c).Some? ==> 1 <= |EscapeUnits(platform, codec, c).value| <= 10
  {
    hide Codec.Lawful, Platform.PrintsShort, IsLong;
    if codec.encode(c).Some? {
      codec.EncodedWidth(c);
    }
  }

  /** The path of a name, in a buffer of ten units for each unit of the name and a terminator. The
      buffer is always large enough: only names that cannot be converted are refused. */
  method CopyFromFileEntryPath(platform: Platform, codec: Codec, name: seq<nat>) returns (path: Option<array<nat>>)
    requires codec.Lawful()
    ensures path.Some? <==>
            && 0 < |name| <= (if platform.Windows? then 461168601842738790 else 922337203685477580)
            && EscapeFrom(platform, codec, name, 0).Some?
    ensures path.Some? ==>
              var units := EscapeFrom(platform, codec, name, 0).value;
              && fresh(path.value) && path.value.Length == 10 * |name| + 1
              && |units| <= 10 * |name| && path.value[..|units|] == units && path.value[|units|] == 0
  {
    hide Codec.Lawful, Platform.PrintsShort, IsLong, PrintHex, Prepend;
    if |name| == 0 || |name| > SSIZE_MAX - 1 {
      return None;
    }
    if |name| > (SSIZE_MAX - 1) / (platform.UnitSize() * 10) {
      return None;
    }
    var safePath := new nat[10 * |name| + 1];
    var nameIndex, pathIndex := 0, 0;
    ghost var all := EscapeFrom(platform, codec, name, 0);
    ghost var written: seq<nat> := [];
    ghost var rest := all;
    PrependNothing(all);
    while nameIndex < |name|
      invariant nameIndex <= |name| && pathIndex <= 10 * nameIndex
      invariant safePath[..pathIndex] == written
      invariant rest == EscapeFrom(platform, codec, name, nameIndex)
      invariant all == Prepend(written, rest)
      decreases |name| - nameIndex
    {
      PrependNone(written);
      codec.DecodeForward(name, nameIndex);
      var decoded := codec.decode(name, nameIndex);
      if decoded.None? {
        return None;
      }
      var (c, next) := decoded.value;
      nameIndex := next;
      if c == 0 {
        rest := Some([]);
        break;
      }
      EscapedWidth(platform, codec, c);
      ghost var units := EscapeUnits(platform, codec, c);
      if platform.PrintsShort(c) {
        var count := Print(safePath, pathIndex, [platform.Escape(), SHORT_MARK] + PrintHex(c, 2));
        pathIndex := pathIndex + count;
      } else if IsLong(c) {
        var count := Print(safePath, pathIndex, [platform.Escape(), LONG_MARK] + PrintHex(c, 8));
        pathIndex := pathIndex + count;
      } else if c == platform.Escape() {
        if pathIndex + 2 > safePath.Length {
          assert false;
          return None;
        }
        safePath[pathIndex] := platform.Escape();
        pathIndex := pathIndex + 1;
        safePath[pathIndex] := c;
        pathIndex := pathIndex + 1;
      } else {
        var put := Put(codec, safePath, pathIndex, c);
        if put.None? {
          return None;
        }
        pathIndex := put.value;
      }
      assert safePath[..pathIndex] == written + units.value;
      rest := EscapeFrom(platform, codec, name, nameIndex);
      PrependTwice(written, units.value, rest);
      written := written + units.value;
    }
    PrependEnd(written);
    if pathIndex >= safePath.Length {
      assert false;
      return None;
    }
    safePath[pathIndex] := 0;
    path := Some(safePath);
  }

  // ---------- The parser ----------

  /** The code point of an escape sequence, from the unit behind the escape on, and the index behind
      the sequence. */
  function UnescapeSequence(platform: Platform, path: seq<nat>, i: nat): (r: Option<(nat, nat)>)
    ensures r.Some? ==> i < r.value.1 <= |path|
  {
    if i + 1 > |path| then None
    else if path[i] == platform.Escape() then Some((platform.Escape(), i + 1))
    else if platform.IsShortMark(path[i]) then
      if i + 3 > |path| then None
      else
        match ParseHex(platform, path[i + 1..i + 3])
        case None => None
        case Some(v) => if platform.AcceptsShort(v) then Some((v, i + 3)) else None
    else if platform.IsLongMark(path[i]) then
      if i + 9 > |path| then None
      else
        match ParseHex(platform, path[i + 1..i + 9])
        case None => None
        case Some(v) => if IsLong(v) then Some((v, i + 9)) else None
    else None
  }

  /** The next code point of a file entry path, and the index behind what stands for it. */
  function UnescapeStep(platform: Platform, codec: Codec, path: seq<nat>, i: nat): (r: Option<(nat, nat)>)
    requires codec.Lawful()
    ensures r.Some? ==> i < r.value.1 <= |path|
  {
    codec.DecodeForward(path, i);
    match codec.decode(path, i)
    case None => None
    case Some((c, next)) =>
      if c == platform.Separator() then Some((FILE_ENTRY_SEPARATOR, next))
      else if c == platform.Escape() then UnescapeSequence(platform, path, next)
      else Some((c, next))
  }

  function UnescapeFrom(platform: Platform, codec: Codec, path: seq<nat>, i: nat): Option<seq<nat>>
    requires codec.Lawful()
    decreases |path| - i
  {
    if i >= |path| then Some([])
    else
      match UnescapeStep(platform, codec, path, i)
      case None => None
      case Some((c, next)) =>
        match codec.encode(c)
        case None => None
        case Some(units) => Prepend(units, UnescapeFrom(platform, codec, path, next))
  }

  /** The file entry path of an absolute path. */
  function Unescape(platform: Platform, codec: Codec, path: seq<nat>): Option<seq<nat>>
    requires codec.Lawful()
  {
    if path == [] || path[0] != platform.Separator() then None else UnescapeFrom(platform, codec, path, 0)
  }

  /** What stands for a code point is never shorter than the code point. */
  lemma UnescapedWidth(platform: Platform, codec: Codec, path: seq<nat>, i: nat)
    requires codec.Lawful() && UnescapeStep(platform, codec, path, i).Some?
    ensures var (c, next) := UnescapeStep(platform, codec, path, i).value;
            codec.encode(c).Some? ==> |codec.encode(c).value| <= next - i
  {
    hide Codec.Lawful, IsLong, ParseHex;
    codec.DecodeForward(path, i);
    var (c, next) := UnescapeStep(platform, codec, path, i).value;
    if codec.encode(c).Some? {
      codec.EncodedWidth(c);
      if c < 0x80 {
        codec.Ascii(c);
      }
    }
  }

  /** The escape sequence behind an escape character. */
  method ReadEscaped(platform: Platform, path: seq<nat>, start: nat) returns (value: Option<(nat, nat)>)
    ensures value == UnescapeSequence(platform, path, start)
  {
    hide ParseHex, IsLong, Platform.AcceptsShort;
    var pathIndex := start;
    if pathIndex + 1 > |path| {
      return None;
    }
    var character := path[pathIndex];
    pathIndex := pathIndex + 1;
    var escapedValue: nat;
    if character == platform.Escape() {
      escapedValue := character;
    } else if platform.IsShortMark(character) {
      if pathIndex + 2 > |path| {
        return None;
      }
      var copied := CopyHexadecimalToInteger(platform, path[pathIndex..pathIndex + 2]);
      if copied.None? {
        return None;
      }
      escapedValue := copied.value;
      pathIndex := pathIndex + 2;
      if !platform.AcceptsShort(escapedValue) {
        return None;
      }
    } else if platform.IsLongMark(character) {
      if pathIndex + 8 > |path| {
        return None;
      }
      var copied := CopyHexadecimalToInteger(platform, path[pathIndex..pathIndex + 8]);
      if copied.None? {
        return None;
      }
      escapedValue := copied.value;
      pathIndex := pathIndex + 8;
      if !IsLong(escapedValue) {
        return None;
      }
    } else {
      return None;
    }
    value := Some((escapedValue, pathIndex));
  }

  /** The file entry path of a path, in a buffer of one unit more than the path. The buffer is always
      large enough: only paths that are not absolute or cannot be converted are refused. */
  method CopyToFileEntryPath(platform: Platform, codec: Codec, path: seq<nat>) returns (name: Option<array<nat>>)
    requires codec.Lawful()
    ensures name.Some? <==>
            && |path| <= (if platform.Windows? then 0x3fff_ffff_ffff_fffe else 0x7fff_ffff_ffff_fffe)
            && Unescape(platform, codec, path).Some?
    ensures name.Some? ==>
              var units := Unescape(platform, codec, path).value;
              && fresh(name.value) && name.value.Length == |path| + 1
              && |units| <= |path| && name.value[..|units|] == units && name.value[|units|] == 0
  {
    hide Codec.Lawful, Prepend, UnescapeSequence, UnescapeFrom;
    if |path| == 0 || |path| > SSIZE_MAX - 1 {
      return None;
    }
    if path[0] != platform.Separator() {
      return None;
    }
    if |path| + 1 > SSIZE_MAX / platform.UnitSize() {
      return None;
    }
    var safeName := new nat[|path| + 1];
    var pathIndex: nat, nameIndex: nat := 0, 0;
    ghost var all := UnescapeFrom(platform, codec, path, 0);
    ghost var written: seq<nat> := [];
    PrependNothing(all);
    while pathIndex < |path|
      invariant pathIndex <= |path| && nameIndex <= pathIndex
      invariant safeName[..nameIndex] == written
      invariant all == Prepend(written, UnescapeFrom(platform, codec, path, pathIndex))
      decreases |path| - pathIndex
    {
      PrependNone(written);
      UnescapeFromStep(platform, codec, path, pathIndex);
      ghost var step := UnescapeStep(platform, codec, path, pathIndex);
      ghost var start := pathIndex;
      codec.DecodeForward(path, pathIndex);
      var decoded := codec.decode(path, pathIndex);
      if decoded.None? {
        return None;
      }
      var (c, next) := decoded.value;
      pathIndex := next;
      if c == platform.Separator() {
        c := FILE_ENTRY_SEPARATOR;
      } else if c == platform.Escape() {
        var escaped := ReadEscaped(platform, path, pathIndex);
        if escaped.None? {
          return None;
        }
        c, pathIndex := escaped.value.0, escaped.value.1;
      }
      assert step == Some((c, pathIndex));
      UnescapedWidth(platform, codec, path, start);
      var put := Put(codec, safeName, nameIndex, c);
      if put.None? {
        return None;
      }
      nameIndex := put.value;
      PrependTwice(written, codec.encode(c).value, UnescapeFrom(platform, codec, path, pathIndex));
      written := written + codec.encode(c).value;
    }
    UnescapeFromEnd(platform, codec, path, pathIndex);
    PrependEnd(written);
    if nameIndex >= safeName.Length {
      assert false;
      return None;
    }
    safeName[nameIndex] := 0;
    name := Some(safeName);
  }

  lemma UnescapeFromStep(platform: Platform, codec: Codec, path: seq<nat>, i: nat)
    requires codec.Lawful() && i < |path|
    ensures var step := UnescapeStep(platform, codec, path, i);
            UnescapeFrom(platform, codec, path, i) ==
            if step.None? || codec.encode(step.value.0).None? then None
            else Prepend(codec.encode(step.value.0).value, UnescapeFrom(platform, codec, path, step.value.1))
  {
    hide Codec.Lawful, UnescapeStep, Prepend;
  }

  lemma UnescapeFromEnd(platform: Platform, codec: Codec, path: seq<nat>, i: nat)
    requires codec.Lawful() && i >= |path|
    ensures UnescapeFrom(platform, codec, path, i) == Some([])
  {
  }
}
