/** The printer and the parser of mount point paths undo each other. */
module MountPathRoundTrip {
  import opened Integers
  import opened Collections
  import opened UnicodeCodecs
  import opened MountPath

  /** Code points that a name can consist of. */
  ghost predicate IsName(codec: Codec, points: seq<nat>) {
    forall c | c in points :: 0 < c < TWO_32 && codec.encode(c).Some?
  }

  function Encode(codec: Codec, points: seq<nat>): seq<nat>
    requires IsName(codec, points)
  {
    if points == [] then [] else codec.encode(points[0]).value + Encode(codec, points[1..])
  }

  /** The units that the printer writes for a name. */
  function Escaped(platform: Platform, codec: Codec, points: seq<nat>): seq<nat>
    requires IsName(codec, points)
  {
    if points == [] then [] else EscapeUnits(platform, codec, points[0]).value + Escaped(platform, codec, points[1..])
  }

  /** The separator of the paths of the platform; that of file entries is always a slash. */
  function SeparatorOf(platform: Platform): nat {
    if platform.Windows? then 0x5c else 0x2f
  }

  // ---------- The printer, on names given by their code points ----------

  lemma {:induction false} PrinterWrites(platform: Platform, codec: Codec, points: seq<nat>, name: seq<nat>, i: nat)
    requires codec.Lawful() && IsName(codec, points)
    requires i <= |name| && name[i..] == Encode(codec, points)
    ensures EscapeFrom(platform, codec, name, i) == Some(Escaped(platform, codec, points))
    decreases |points|
  {
    hide Codec.Lawful, EscapeUnits;
    if points != [] {
      var c := points[0];
      var units, rest := codec.encode(c).value, Encode(codec, points[1..]);
      assert IsName(codec, points[1..]);
      FirstUnits(name, i, units, rest);
      codec.EncodedWidth(c);
      codec.DecodeEncoded(name, i, c);
      PrinterWrites(platform, codec, points[1..], name, i + |units|);
      EscapeUnitsDefined(platform, codec, c);
    }
  }

  lemma FirstUnits(s: seq<nat>, i: nat, units: seq<nat>, rest: seq<nat>)
    requires i <= |s| && s[i..] == units + rest
    ensures i + |units| <= |s| && s[i..i + |units|] == units && s[i + |units|..] == rest
  {
    var tail := s[i..];
    assert tail[..|units|] == units && tail[|units|..] == rest;
    assert s[i..i + |units|] == tail[..|units|];
    assert s[i + |units|..] == tail[|units|..];
  }

  lemma EscapeUnitsDefined(platform: Platform, codec: Codec, c: nat)
    requires codec.encode(c).Some?
    ensures EscapeUnits(platform, codec, c).Some?
  {
  }

  /** A zero ends a name, whatever follows it. */
  lemma {:induction false} ZeroEndsTheName(platform: Platform, codec: Codec, points: seq<nat>, name: seq<nat>, i: nat,
                                           more: seq<nat>)
    requires codec.Lawful() && IsName(codec, points)
    requires i <= |name| && name[i..] == Encode(codec, points) + ([0] + more)
    ensures EscapeFrom(platform, codec, name, i) == Some(Escaped(platform, codec, points))
    decreases |points|
  {
    hide Codec.Lawful, EscapeUnits;
    if points == [] {
      assert name[i..][0] == 0;
      codec.Ascii(0);
      assert name[i..i + 1] == [0];
      codec.DecodeEncoded(name, i, 0);
    } else {
      PrinterStep(platform, codec, points, name, i, [0] + more);
      ZeroEndsTheName(platform, codec, points[1..], name, i + |codec.encode(points[0]).value|, more);
    }
  }

  /** A name that cannot be decoded behind some code points is refused. */
  lemma {:induction false} UndecodableNameIsRefused(platform: Platform, codec: Codec, points: seq<nat>, name: seq<nat>,
                                                    i: nat, rest: seq<nat>)
    requires codec.Lawful() && IsName(codec, points)
    requires i <= |name| && name[i..] == Encode(codec, points) + rest && rest != []
    requires codec.decode(name, |name| - |rest|).None?
    ensures EscapeFrom(platform, codec, name, i) == None
    decreases |points|
  {
    hide Codec.Lawful, EscapeUnits;
    if points == [] {
      assert name[i..] == rest;
    } else {
      PrinterStep(platform, codec, points, name, i, rest);
      UndecodableNameIsRefused(platform, codec, points[1..], name, i + |codec.encode(points[0]).value|, rest);
    }
  }

  /** The printer writes the first code point and goes on behind it. */
  lemma PrinterStep(platform: Platform, codec: Codec, points: seq<nat>, name: seq<nat>, i: nat, rest: seq<nat>)
    requires codec.Lawful() && IsName(codec, points) && points != []
    requires i <= |name| && name[i..] == Encode(codec, points) + rest
    ensures var next := i + |codec.encode(points[0]).value|;
            && i < next <= |name| && IsName(codec, points[1..]) && name[next..] == Encode(codec, points[1..]) + rest
            && EscapeUnits(platform, codec, points[0]).Some?
            && EscapeFrom(platform, codec, name, i) ==
               Prepend(EscapeUnits(platform, codec, points[0]).value, EscapeFrom(platform, codec, name, next))
  {
    hide Codec.Lawful, EscapeUnits;
    var units, more := codec.encode(points[0]).value, Encode(codec, points[1..]);
    NameTail(codec, points);
    assert units + more + rest == units + (more + rest);
    FirstUnits(name, i, units, more + rest);
    codec.EncodedWidth(points[0]);
    codec.DecodeEncoded(name, i, points[0]);
    EscapeUnitsDefined(platform, codec, points[0]);
  }

  // ---------- The parser, on what the printer writes ----------

  /** The parser takes what is written for one code point as that code point. */
  lemma StepInvertsEscape(platform: Platform, codec: Codec, c: nat, path: seq<nat>, i: nat)
    requires codec.Lawful() && 0 < c < TWO_32 && codec.encode(c).Some?
    requires var units := EscapeUnits(platform, codec, c).value;
             i + |units| <= |path| && path[i..i + |units|] == units
    ensures UnescapeStep(platform, codec, path, i) == Some((c, i + |EscapeUnits(platform, codec, c).value|))
  {
    hide Codec.Lawful, PrintHex, ParseHex, IsLong, Platform.PrintsShort, Platform.AcceptsShort;
    var units := EscapeUnits(platform, codec, c).value;
    HexLengths();
    if platform.PrintsShort(c) {
      assert c < 0x100 && platform.AcceptsShort(c) by {
        ShortSetsCoincide(platform, c);
      }
      EscapeIsDecoded(platform, codec, path, i);
      assert path[i] == units[0] && path[i + 1] == units[1];
      DigitsBehind(path, i, units);
      ParsePrintHex(platform, c, 2);
    } else if IsLong(c) {
      EscapeIsDecoded(platform, codec, path, i);
      assert path[i] == units[0] && path[i + 1] == units[1];
      DigitsBehind(path, i, units);
      ParsePrintHex(platform, c, 8);
    } else if c == platform.Escape() {
      EscapeIsDecoded(platform, codec, path, i);
      assert path[i] == units[0] && path[i + 1] == units[1];
    } else {
      SeparatorIsShort(platform);
      codec.DecodeEncoded(path, i, c);
    }
  }

  lemma SeparatorIsShort(platform: Platform)
    ensures platform.PrintsShort(platform.Separator())
  {
  }

  /** The printer and the parser agree on the short escapes; only a zero is printed but not accepted,
      and a zero ends a name. */
  lemma ShortSetsCoincide(platform: Platform, c: nat)
    ensures platform.AcceptsShort(c) <==> platform.PrintsShort(c) && c > 0
    ensures platform.PrintsShort(c) ==> c < 0x100
  {
  }

  /** Escape and digits are ASCII. */
  lemma EscapeIsDecoded(platform: Platform, codec: Codec, path: seq<nat>, i: nat)
    requires codec.Lawful() && i < |path| && path[i] == platform.Escape()
    ensures codec.decode(path, i) == Some((platform.Escape(), i + 1))
  {
    hide Codec.Lawful;
    codec.Ascii(platform.Escape());
    assert path[i..i + 1] == [platform.Escape()];
    codec.DecodeEncoded(path, i, platform.Escape());
  }

  lemma DigitsBehind(path: seq<nat>, i: nat, units: seq<nat>)
    requires |units| >= 2 && i + |units| <= |path| && path[i..i + |units|] == units
    ensures path[i] == units[0] && path[i + 1] == units[1]
    ensures path[i + 2..i + |units|] == units[2..]
  {
    assert path[i..i + |units|][2..] == path[i + 2..i + |units|];
  }

  /** The parser takes a printed name, up to an end inside a path, for the name. */
  lemma {:induction false} ParserReads(platform: Platform, codec: Codec, points: seq<nat>, path: seq<nat>, i: nat,
                                       rest: seq<nat>)
    requires codec.Lawful() && IsName(codec, points)
    requires i <= |path| && path[i..] == Escaped(platform, codec, points) + rest
    ensures |path| >= |rest|
    ensures UnescapeFrom(platform, codec, path, i) ==
            Prepend(Encode(codec, points), UnescapeFrom(platform, codec, path, |path| - |rest|))
    decreases |points|
  {
    hide Codec.Lawful, EscapeUnits, UnescapeStep, UnescapeFrom, Prepend;
    if points == [] {
      assert [] + rest == rest;
      PrependNothing(UnescapeFrom(platform, codec, path, i));
    } else {
      var c := points[0];
      EscapeUnitsDefined(platform, codec, c);
      var units, more := EscapeUnits(platform, codec, c).value, Escaped(platform, codec, points[1..]);
      assert IsName(codec, points[1..]);
      assert units + more + rest == units + (more + rest);
      FirstUnits(path, i, units, more + rest);
      StepInvertsEscape(platform, codec, c, path, i);
      EscapedWidth(platform, codec, c);
      UnescapeFromStep(platform, codec, path, i);
      ParserReads(platform, codec, points[1..], path, i + |units|, rest);
      PrependTwice(codec.encode(c).value, Encode(codec, points[1..]),
        UnescapeFrom(platform, codec, path, |path| - |rest|));
    }
  }

  lemma SeparatorStep(platform: Platform, codec: Codec, path: seq<nat>, i: nat)
    requires codec.Lawful() && i < |path| && path[i] == SeparatorOf(platform)
    ensures UnescapeFrom(platform, codec, path, i) ==
            Prepend([0x2f], UnescapeFrom(platform, codec, path, i + 1))
  {
    hide Codec.Lawful, UnescapeFrom, UnescapeSequence;
    codec.Ascii(platform.Separator());
    codec.Ascii(FILE_ENTRY_SEPARATOR);
    assert path[i..i + 1] == [SeparatorOf(platform)];
    codec.DecodeEncoded(path, i, platform.Separator());
    UnescapeFromStep(platform, codec, path, i);
  }

  // ---------- Whole paths ----------

  ghost predicate AreNames(codec: Codec, components: seq<seq<nat>>) {
    forall points | points in components :: IsName(codec, points)
  }

  /** The path of the mount point: each component printed, behind a separator. */
  function MountPathOf(platform: Platform, codec: Codec, components: seq<seq<nat>>): seq<nat>
    requires AreNames(codec, components)
  {
    if components == [] then []
    else
      [SeparatorOf(platform)] + Escaped(platform, codec, components[0]) +
      MountPathOf(platform, codec, components[1..])
  }

  /** The path of the file entry: each component as it is, behind a separator. */
  function FileEntryPathOf(codec: Codec, components: seq<seq<nat>>): seq<nat>
    requires AreNames(codec, components)
  {
    if components == [] then []
    else [0x2f] + Encode(codec, components[0]) + FileEntryPathOf(codec, components[1..])
  }

  lemma {:induction false} ParserReadsComponents(platform: Platform, codec: Codec, components: seq<seq<nat>>,
                                                 path: seq<nat>, i: nat)
    requires codec.Lawful() && AreNames(codec, components)
    requires i <= |path| && path[i..] == MountPathOf(platform, codec, components)
    ensures UnescapeFrom(platform, codec, path, i) == Some(FileEntryPathOf(codec, components))
    decreases |components|
  {
    hide Codec.Lawful, Escaped, Encode, UnescapeFrom;
    if components == [] {
      UnescapeFromEnd(platform, codec, path, i);
    } else {
      var points := components[0];
      assert IsName(codec, points) && AreNames(codec, components[1..]);
      var name, rest := Escaped(platform, codec, points), MountPathOf(platform, codec, components[1..]);
      assert path[i..] == [SeparatorOf(platform)] + (name + rest);
      FirstUnits(path, i, [SeparatorOf(platform)], name + rest);
      SeparatorStep(platform, codec, path, i);
      ParserReads(platform, codec, points, path, i + 1, rest);
      FirstUnits(path, i + 1, name, rest);
      ParserReadsComponents(platform, codec, components[1..], path, |path| - |rest|);
      var first, more := Encode(codec, points), FileEntryPathOf(codec, components[1..]);
      assert [0x2f] + (first + more) == [0x2f] + first + more;
    }
  }

  /** Printing the components of a path, joining them with separators and parsing the result gives
      the path of the file entry, for every list of names. */
  lemma PathRoundTrip(platform: Platform, codec: Codec, components: seq<seq<nat>>)
    requires codec.Lawful() && AreNames(codec, components) && components != []
    ensures Unescape(platform, codec, MountPathOf(platform, codec, components)) ==
            Some(FileEntryPathOf(codec, components))
  {
    hide Codec.Lawful, Escaped, Encode, UnescapeFrom;
    var path := MountPathOf(platform, codec, components);
    assert path[0..] == path;
    ParserReadsComponents(platform, codec, components, path, 0);
  }

  /** A path that is not absolute is refused. */
  lemma RelativePathIsRefused(platform: Platform, codec: Codec, path: seq<nat>)
    requires codec.Lawful() && (path == [] || path[0] != SeparatorOf(platform))
    ensures Unescape(platform, codec, path) == None
  {
    hide Codec.Lawful;
  }

  /** So is one in which something stands behind a printed name that the parser does not accept. */
  lemma MalformedPathIsRefused(platform: Platform, codec: Codec, points: seq<nat>, rest: seq<nat>)
    requires codec.Lawful() && IsName(codec, points) && rest != []
    requires var path := [SeparatorOf(platform)] + Escaped(platform, codec, points) + rest;
             UnescapeStep(platform, codec, path, |path| - |rest|).None?
    ensures Unescape(platform, codec, [SeparatorOf(platform)] + Escaped(platform, codec, points) + rest) == None
  {
    hide Codec.Lawful, Escaped, Encode, UnescapeFrom, UnescapeStep;
    var path := [SeparatorOf(platform)] + Escaped(platform, codec, points) + rest;
    SeparatorStep(platform, codec, path, 0);
    assert path[1..] == Escaped(platform, codec, points) + rest;
    ParserReads(platform, codec, points, path, 1, rest);
    UnescapeFromStep(platform, codec, path, |path| - |rest|);
    PrependNone(Encode(codec, points));
    PrependNone([0x2f]);
  }

  /** Printing a name and parsing it behind a separator gives the name behind a separator. */
  lemma NameRoundTrip(platform: Platform, codec: Codec, points: seq<nat>)
    requires codec.Lawful() && IsName(codec, points)
    ensures EscapeFrom(platform, codec, Encode(codec, points), 0) == Some(Escaped(platform, codec, points))
    ensures Unescape(platform, codec, [SeparatorOf(platform)] + Escaped(platform, codec, points)) ==
            Some([0x2f] + Encode(codec, points))
  {
    hide Codec.Lawful, UnescapeFrom, EscapeFrom, Unescape;
    var name := Encode(codec, points);
    assert name[0..] == name;
    PrinterWrites(platform, codec, points, name, 0);
    PathRoundTrip(platform, codec, [points]);
    assert MountPathOf(platform, codec, [points]) == [SeparatorOf(platform)] + Escaped(platform, codec, points)
           + MountPathOf(platform, codec, [points][1..]);
    assert [SeparatorOf(platform)] + Escaped(platform, codec, points) + [] == [SeparatorOf(platform)]
           + Escaped(platform, codec, points);
    assert FileEntryPathOf(codec, [points]) == [0x2f] + name + FileEntryPathOf(codec, [points][1..]);
    assert [0x2f] + name + [] == [0x2f] + name;
  }

  lemma {:induction false} EscapedLength(platform: Platform, codec: Codec, points: seq<nat>)
    requires codec.Lawful() && IsName(codec, points)
    ensures |Escaped(platform, codec, points)| <= 10 * |Encode(codec, points)|
  {
    hide Codec.Lawful, EscapeUnits;
    if points != [] {
      NameTail(codec, points);
      EscapeUnitsDefined(platform, codec, points[0]);
      EscapedWidth(platform, codec, points[0]);
      codec.EncodedWidth(points[0]);
      EscapedLength(platform, codec, points[1..]);
    }
  }

  /** Whatever name is short enough to be printed, its path is short enough to be parsed. */
  lemma PrintedNameIsShortEnough(platform: Platform, codec: Codec, points: seq<nat>)
    requires codec.Lawful() && IsName(codec, points)
    requires |Encode(codec, points)| <= if platform.Windows? then 461168601842738790 else 922337203685477580
    ensures var path := [SeparatorOf(platform)] + Escaped(platform, codec, points);
            |path| <= if platform.Windows? then 0x3fff_ffff_ffff_fffe else 0x7fff_ffff_ffff_fffe
  {
    hide Codec.Lawful, Encode, Escaped;
    EscapedLength(platform, codec, points);
  }

  // ---------- Distinct names stay distinct components ----------

  lemma NameTail(codec: Codec, points: seq<nat>)
    requires IsName(codec, points) && points != []
    ensures IsName(codec, points[1..])
  {
    hide Codec.Lawful;
    forall c | c in points[1..]
      ensures c in points
    {
    }
  }

  lemma {:induction false} EncodeInjective(codec: Codec, a: seq<nat>, b: seq<nat>)
    requires codec.Lawful() && IsName(codec, a) && IsName(codec, b)
    requires Encode(codec, a) == Encode(codec, b)
    ensures a == b
    decreases |a|
  {
    hide Codec.Lawful;
    var s := Encode(codec, a);
    if a != [] {
      codec.EncodedWidth(a[0]);
    }
    if b != [] {
      codec.EncodedWidth(b[0]);
    }
    if a != [] && b != [] {
      var x, y := codec.encode(a[0]).value, codec.encode(b[0]).value;
      NameTail(codec, a);
      NameTail(codec, b);
      assert s[0..] == s;
      FirstUnits(s, 0, x, Encode(codec, a[1..]));
      FirstUnits(s, 0, y, Encode(codec, b[1..]));
      codec.DecodeEncoded(s, 0, a[0]);
      codec.DecodeEncoded(s, 0, b[0]);
      EncodeInjective(codec, a[1..], b[1..]);
    }
  }

  /** The printer never gives two names the same path. */
  lemma EscapeInjective(platform: Platform, codec: Codec, a: seq<nat>, b: seq<nat>)
    requires codec.Lawful() && IsName(codec, a) && IsName(codec, b)
    requires Escaped(platform, codec, a) == Escaped(platform, codec, b)
    ensures a == b
  {
    hide Codec.Lawful, Unescape, Encode, Escaped;
    NameRoundTrip(platform, codec, a);
    NameRoundTrip(platform, codec, b);
    var x, y := Encode(codec, a), Encode(codec, b);
    assert ([0x2f] + x)[1..] == x && ([0x2f] + y)[1..] == y;
    EncodeInjective(codec, a, b);
  }

  /** The code points that are written for a name. */
  function EscapedPoints(platform: Platform, points: seq<nat>): seq<nat> {
    if points == [] then [] else EscapePoints(platform, points[0]) + EscapedPoints(platform, points[1..])
  }

  /** A code point that can stand in a component of a path: no separator, no reserved or control
      character, no surrogate, undefined or unprintable code point. */
  predicate IsPlain(platform: Platform, c: nat) {
    !platform.PrintsShort(c) && !IsLong(c)
  }

  lemma EscapePointsArePlain(platform: Platform, c: nat)
    ensures forall p | p in EscapePoints(platform, c) :: IsPlain(platform, p)
  {
    hide IsLong, PrintHex, Platform.PrintsShort;
    HexIsPlain(c, 2);
    HexIsPlain(c, 8);
    forall p | p in EscapePoints(platform, c)
      ensures IsPlain(platform, p)
    {
      if p != c {
        WrittenAsciiIsPlain(platform, p);
      } else if p in {platform.Escape(), SHORT_MARK, LONG_MARK} || 0x30 <= p <= 0x39 || 0x61 <= p <= 0x66 {
        WrittenAsciiIsPlain(platform, p);
      }
    }
  }

  /** The escape character, the marks and the digits need no escaping. */
  lemma WrittenAsciiIsPlain(platform: Platform, p: nat)
    requires p in {platform.Escape(), SHORT_MARK, LONG_MARK} || 0x30 <= p <= 0x39 || 0x61 <= p <= 0x66
    ensures IsPlain(platform, p)
  {
  }

  /** A printed name is one component, and it shows no character that the platform cannot show. */
  lemma {:induction false} EscapedIsOneComponent(platform: Platform, points: seq<nat>)
    ensures forall p | p in EscapedPoints(platform, points) :: IsPlain(platform, p)
  {
    hide IsPlain;
    if points != [] {
      EscapePointsArePlain(platform, points[0]);
      EscapedIsOneComponent(platform, points[1..]);
    }
  }

  /** The units that are written are the encoding of those code points. */
  lemma {:induction false} EscapedEncodesItsPoints(platform: Platform, codec: Codec, points: seq<nat>)
    requires codec.Lawful() && IsName(codec, points)
    ensures IsName(codec, EscapedPoints(platform, points))
    ensures Encode(codec, EscapedPoints(platform, points)) == Escaped(platform, codec, points)
  {
    hide Codec.Lawful, EscapeUnits, EscapePoints;
    if points != [] {
      var c := points[0];
      var first, rest := EscapePoints(platform, c), EscapedPoints(platform, points[1..]);
      assert c in points && IsName(codec, points[1..]);
      EscapedEncodesItsPoints(platform, codec, points[1..]);
      EscapeUnitsAreEncoded(platform, codec, c);
      EncodeAppend(codec, first, rest);
    }
  }

  lemma EscapeUnitsAreEncoded(platform: Platform, codec: Codec, c: nat)
    requires codec.Lawful() && 0 < c < TWO_32 && codec.encode(c).Some?
    ensures IsName(codec, EscapePoints(platform, c))
    ensures EscapeUnits(platform, codec, c) == Some(Encode(codec, EscapePoints(platform, c)))
  {
    hide Codec.Lawful, IsLong, PrintHex, Platform.PrintsShort;
    if platform.PrintsShort(c) || IsLong(c) || c == platform.Escape() {
      HexIsPlain(c, 2);
      HexIsPlain(c, 8);
      AsciiEncodesItself(codec, EscapePoints(platform, c));
    } else {
      assert [c][1..] == [];
      assert codec.encode(c).value + [] == codec.encode(c).value;
      assert Encode(codec, [c]) == codec.encode([c][0]).value + Encode(codec, [c][1..]);
    }
  }

  lemma {:induction false} AsciiEncodesItself(codec: Codec, points: seq<nat>)
    requires codec.Lawful() && forall p | p in points :: 0 < p < 0x80
    ensures IsName(codec, points) && Encode(codec, points) == points
  {
    hide Codec.Lawful;
    if points != [] {
      assert points[0] in points && forall p | p in points[1..] :: p in points;
      AsciiEncodesItself(codec, points[1..]);
      codec.Ascii(points[0]);
      forall p | p in points
        ensures 0 < p < TWO_32 && codec.encode(p).Some?
      {
        codec.Ascii(p);
      }
    }
  }

  lemma {:induction false} EncodeAppend(codec: Codec, a: seq<nat>, b: seq<nat>)
    requires IsName(codec, a) && IsName(codec, b)
    ensures IsName(codec, a + b) && Encode(codec, a + b) == Encode(codec, a) + Encode(codec, b)
    decreases |a|
  {
    if a == [] {
      assert a + b == b;
    } else {
      assert IsName(codec, a[1..]);
      EncodeAppend(codec, a[1..], b);
      assert (a + b)[1..] == a[1..] + b;
    }
  }

  ghost predicate AreScalars(components: seq<seq<nat>>) {
    forall points, c | points in components && c in points :: c > 0 && IsScalar(c)
  }

  /** For UTF-8 this holds for every list of strings of non-zero Unicode scalar values. */
  lemma Utf8PathRoundTrip(platform: Platform, components: seq<seq<nat>>)
    requires components != [] && AreScalars(components)
    ensures UTF8.Lawful() && AreNames(UTF8, components)
    ensures Unescape(platform, UTF8, MountPathOf(platform, UTF8, components)) == Some(FileEntryPathOf(UTF8, components))
  {
    Utf8IsLawful();
    forall points | points in components
      ensures IsName(UTF8, points)
    {
    }
    hide Codec.Lawful, Unescape, MountPathOf, FileEntryPathOf;
    PathRoundTrip(platform, UTF8, components);
  }

  /** And so it does for UTF-16, which the Windows build uses. */
  lemma Utf16PathRoundTrip(platform: Platform, components: seq<seq<nat>>)
    requires components != [] && AreScalars(components)
    ensures UTF16.Lawful() && AreNames(UTF16, components)
    ensures Unescape(platform, UTF16, MountPathOf(platform, UTF16, components)) ==
            Some(FileEntryPathOf(UTF16, components))
  {
    Utf16IsLawful();
    forall points | points in components
      ensures IsName(UTF16, points)
    {
    }
    hide Codec.Lawful, Unescape, MountPathOf, FileEntryPathOf;
    PathRoundTrip(platform, UTF16, components);
  }
}
