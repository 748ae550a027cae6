/** What the printer writes and the parser accepts, spelled out character by character. */
module MountPathTable {
  import opened Integers
  import opened Collections
  import opened UnicodeCodecs
  import opened MountPath

  /** The characters 0123456789abcdef and 0123456789ABCDEF. */
  const LOWER: seq<nat> :=
    [0x30, 0x31, 0x32, 0x33, 0x34, 0x35, 0x36, 0x37, 0x38, 0x39, 0x61, 0x62, 0x63, 0x64, 0x65, 0x66]
  const UPPER: seq<nat> :=
    [0x30, 0x31, 0x32, 0x33, 0x34, 0x35, 0x36, 0x37, 0x38, 0x39, 0x41, 0x42, 0x43, 0x44, 0x45, 0x46]

  function Two(c: nat): seq<nat>
    requires c < 0x100
  {
    [LOWER[c / 16], LOWER[c % 16]]
  }

  function Eight(c: nat): seq<nat>
    requires c < 0x1_0000_0000
  {
    Two(c / 0x100_0000) + Two(c / 0x1_0000 % 0x100) + Two(c / 0x100 % 0x100) + Two(c % 0x100)
  }

  /** Control characters, the separator, and on Windows the characters < > : " / | ? and *. */
  predicate IsShort(windows: bool, c: nat) {
    c < 0x20 || 0x7f <= c < 0xa0 ||
    (if windows then c in {0x5c, 0x3c, 0x3e, 0x3a, 0x22, 0x2f, 0x7c, 0x3f, 0x2a} else c == 0x2f)
  }

  /** Line and paragraph separators, surrogates, the ends of the private use areas, non-characters, and
      everything from U+10FFFD on. */
  predicate IsUnprintable(c: nat) {
    || c in {0x2028, 0x2029, 0xe000, 0xf8ff, 0xf_0000, 0xf_fffd, 0x10_0000}
    || 0xd800 <= c < 0xe000 || 0xfdd0 <= c < 0xfde0 || c % 0x1_0000 in {0xfffe, 0xffff} || c >= 0x10_fffd
  }

  /** What is written for a code point: a backslash, on Windows a circumflex, then x and two digits or U
      and eight, or the same character again; anything else is written as it is. */
  function Written(windows: bool, c: nat): seq<nat>
    requires c < 0x1_0000_0000
  {
    var escape := if windows then 0x5e else 0x5c;
    if IsShort(windows, c) then [escape, 0x78] + Two(c)
    else if IsUnprintable(c) then [escape, 0x55] + Eight(c)
    else if c == escape then [escape, escape]
    else [c]
  }

  lemma HexDigitIsLower(d: nat)
    requires d < 16
    ensures HexDigit(d) == LOWER[d]
  {
  }

  lemma TwoDigits(c: nat)
    requires c < 0x100
    ensures PrintHex(c, 2) == Two(c)
  {
    HexDigitIsLower(c / 16);
    HexDigitIsLower(c % 16);
    assert PrintHex(c / 16, 1) == PrintHex(c / 16 / 16, 0) + [HexDigit(c / 16 % 16)];
  }

  lemma TwoMoreDigits(c: nat, n: nat)
    ensures PrintHex(c, n + 2) == PrintHex(c / 0x100, n) + Two(c % 0x100)
  {
    HexDigitIsLower(c / 16 % 16);
    HexDigitIsLower(c % 16);
    assert c / 16 / 16 == c / 0x100;
    assert c % 0x100 / 16 == c / 16 % 16 && c % 0x100 % 16 == c % 16;
    assert PrintHex(c, n + 2) == PrintHex(c / 16, n + 1) + [HexDigit(c % 16)];
    assert PrintHex(c / 16, n + 1) == PrintHex(c / 16 / 16, n) + [HexDigit(c / 16 % 16)];
  }

  lemma EightDigits(c: nat)
    requires c < 0x1_0000_0000
    ensures PrintHex(c, 8) == Eight(c)
  {
    hide PrintHex, Two;
    TwoMoreDigits(c, 6);
    TwoMoreDigits(c / 0x100, 4);
    TwoMoreDigits(c / 0x1_0000, 2);
    TwoDigits(c / 0x100_0000);
    assert c / 0x100 / 0x100 == c / 0x1_0000 && c / 0x1_0000 / 0x100 == c / 0x100_0000;
  }

  lemma IsLongIsUnprintable(c: nat)
    ensures IsLong(c) <==> IsUnprintable(c)
  {
  }

  /** The printer writes what the table says, for every code point. */
  lemma PrinterFollowsTheTable(platform: Platform, c: nat)
    requires c < 0x1_0000_0000
    ensures EscapePoints(platform, c) == Written(platform.Windows?, c)
  {
    hide IsLong, IsUnprintable, PrintHex, Two, Eight;
    IsLongIsUnprintable(c);
    if c < 0x100 {
      TwoDigits(c);
    }
    EightDigits(c);
  }

  // ---------- The parser ----------

  predicate IsDigit(windows: bool, u: nat, d: nat) {
    d < 16 && (u == LOWER[d] || (windows && u == UPPER[d]))
  }

  lemma DigitExactly(platform: Platform, u: nat, d: nat)
    ensures DigitValue(platform, u) == Some(d) <==> IsDigit(platform.Windows?, u, d)
  {
  }

  /** Two digits have a value exactly when both are digits. */
  lemma TwoDigitsAreRead(platform: Platform, s: seq<nat>, v: nat)
    requires |s| == 2
    ensures ParseHex(platform, s) == Some(v) <==>
            exists a: nat, b: nat :: IsDigit(platform.Windows?, s[0], a) && IsDigit(platform.Windows?, s[1], b)
              && v == a * 16 + b
  {
    hide DigitValue, IsDigit;
    assert s[..1][..0] == [] && s[..1][0] == s[0];
    assert ParseHex(platform, s[..1][..0]) == Some(0);
    forall a: nat, b: nat
      ensures DigitValue(platform, s[0]) == Some(a) <==> IsDigit(platform.Windows?, s[0], a)
      ensures DigitValue(platform, s[1]) == Some(b) <==> IsDigit(platform.Windows?, s[1], b)
    {
      DigitExactly(platform, s[0], a);
      DigitExactly(platform, s[1], b);
    }
    DigitBound(platform, s[0]);
    DigitBound(platform, s[1]);
  }

  /** The sequences that the parser accepts behind an escape character: the same character, x and two
      digits for a code point that the printer writes so, U and eight digits for one that it writes so.
      On Windows x and U may also be in the other case. */
  lemma SequenceExactly(platform: Platform, path: seq<nat>, i: nat, v: nat, next: nat)
    ensures UnescapeSequence(platform, path, i) == Some((v, next)) <==>
            && i < next <= |path|
            && var windows := platform.Windows?;
               var escape := if windows then 0x5e else 0x5c;
               || (path[i] == escape && v == escape && next == i + 1)
               || (&& (path[i] == 0x78 || (windows && path[i] == 0x58))
                   && next == i + 3 && ParseHex(platform, path[i + 1..next]) == Some(v) && v > 0 && IsShort(windows, v))
               || (&& (path[i] == 0x55 || (windows && path[i] == 0x75))
                   && next == i + 9 && ParseHex(platform, path[i + 1..next]) == Some(v) && IsUnprintable(v))
  {
    hide ParseHex, IsLong, IsUnprintable;
    IsLongIsUnprintable(v);
  }
}
