/** The conversion between code points and the code units of a system string. */
module UnicodeCodecs {
  import opened Integers
  import opened Collections

  /**
   The conversions of the Unicode library: encode gives the units of a code point, decode the code
   point at an index and the index behind it.
   */
  datatype Codec = Codec(encode: nat -> Option<seq<nat>>, decode: (seq<nat>, nat) -> Option<(nat, nat)>) {

    /** Encodings are short, ASCII stands for itself and for nothing else. */
    ghost predicate EncodesAscii() {
      forall c: nat :: encode(c).Some? ==>
        && 1 <= |encode(c).value| <= 6
        && (c < 0x100 ==> |encode(c).value| <= 2)
        && (c >= 0x80 ==> forall u | u in encode(c).value :: u >= 0x80)
    }

    ghost predicate AsciiIsItself() {
      forall c: nat :: c < 0x80 ==> encode(c) == Some([c])
    }

    /** What was encoded is decoded, wherever it stands. */
    ghost predicate DecodesEncoded() {
      forall s: seq<nat>, i: nat, c: nat {:trigger decode(s, i), encode(c)} ::
        encode(c).Some? && i + |encode(c).value| <= |s| && s[i..i + |encode(c).value|] == encode(c).value ==>
        decode(s, i) == Some((c, i + |encode(c).value|))
    }

    /** Decoding advances, stays inside, and never takes fewer units than encoding gives. */
    ghost predicate DecodesForward() {
      forall s: seq<nat>, i: nat {:trigger decode(s, i)} :: decode(s, i).Some? ==>
        && i < decode(s, i).value.1 <= |s| && decode(s, i).value.0 < TWO_32
        && var e := encode(decode(s, i).value.0);
           e.Some? ==> |e.value| <= decode(s, i).value.1 - i
    }

    ghost predicate Lawful() {
      EncodesAscii() && AsciiIsItself() && DecodesEncoded() && DecodesForward()
    }

    lemma EncodedWidth(c: nat)
      requires Lawful() && encode(c).Some?
      ensures 1 <= |encode(c).value| <= 6 && (c < 0x100 ==> |encode(c).value| <= 2)
      ensures c >= 0x80 ==> forall u | u in encode(c).value :: u >= 0x80
    {
    }

    lemma Ascii(c: nat)
      requires Lawful() && c < 0x80
      ensures encode(c) == Some([c])
    {
    }

    lemma DecodeEncoded(s: seq<nat>, i: nat, c: nat)
      requires Lawful() && encode(c).Some?
      requires i + |encode(c).value| <= |s| && s[i..i + |encode(c).value|] == encode(c).value
      ensures decode(s, i) == Some((c, i + |encode(c).value|))
    {
    }

    lemma DecodeForward(s: seq<nat>, i: nat)
      requires Lawful()
      ensures decode(s, i).Some? ==> i < decode(s, i).value.1 <= |s| && decode(s, i).value.0 < TWO_32
      ensures decode(s, i).Some? && encode(decode(s, i).value.0).Some? ==>
                |encode(decode(s, i).value.0).value| <= decode(s, i).value.1 - i
    {
    }
  }

  // ---------- UTF-8, section 3 of RFC 3629 ----------

  predicate IsScalar(c: nat) {
    c < 0xd800 || 0xe000 <= c <= 0x10ffff
  }

  function Utf8Encode(c: nat): Option<seq<nat>> {
    if c < 0x80 then Some([c])
    else if c < 0x800 then Some([0xc0 + c / 64, 0x80 + c % 64])
    else if !IsScalar(c) then None
    else if c < 0x1_0000 then Some([0xe0 + c / 4096, 0x80 + c / 64 % 64, 0x80 + c % 64])
    else Some([0xf0 + c / 262144, 0x80 + c / 4096 % 64, 0x80 + c / 64 % 64, 0x80 + c % 64])
  }

  predicate IsTail(u: nat) {
    0x80 <= u < 0xc0
  }

  /** Accepts the shortest form of a scalar value only. */
  function Utf8Decode(s: seq<nat>, i: nat): Option<(nat, nat)> {
    if i >= |s| then None
    else if s[i] < 0x80 then Some((s[i], i + 1))
    else if 0xc2 <= s[i] < 0xe0 && i + 1 < |s| && IsTail(s[i + 1]) then
      Some(((s[i] - 0xc0) * 64 + (s[i + 1] - 0x80), i + 2))
    else if 0xe0 <= s[i] < 0xf0 && i + 2 < |s| && IsTail(s[i + 1]) && IsTail(s[i + 2]) then
      var c := (s[i] - 0xe0) * 4096 + (s[i + 1] - 0x80) * 64 + (s[i + 2] - 0x80);
      if c >= 0x800 && IsScalar(c) then Some((c, i + 3)) else None
    else if 0xf0 <= s[i] < 0xf5 && i + 3 < |s| && IsTail(s[i + 1]) && IsTail(s[i + 2]) && IsTail(s[i + 3]) then
      var c := (s[i] - 0xf0) * 262144 + (s[i + 1] - 0x80) * 4096 + (s[i + 2] - 0x80) * 64 + (s[i + 3] - 0x80);
      if c >= 0x1_0000 && IsScalar(c) then Some((c, i + 4)) else None
    else None
  }

  const UTF8: Codec := Codec(c => Utf8Encode(c), (s, i) => Utf8Decode(s, i))

  lemma ThreeUnits(c: nat)
    requires c < 0x1_0000
    ensures c / 4096 < 16
    ensures c / 4096 * 4096 + c / 64 % 64 * 64 + c % 64 == c
  {
    assert c / 64 / 64 == c / 4096;
  }

  lemma FourUnits(c: nat)
    requires 0x1_0000 <= c <= 0x10ffff
    ensures c / 262144 < 5
    ensures c / 262144 * 262144 + c / 4096 % 64 * 4096 + c / 64 % 64 * 64 + c % 64 == c
  {
    assert c / 64 / 64 == c / 4096;
    assert c / 4096 / 64 == c / 262144;
  }

  lemma Utf8Inverse(s: seq<nat>, i: nat, c: nat)
    requires Utf8Encode(c).Some? && i + |Utf8Encode(c).value| <= |s|
    requires s[i..i + |Utf8Encode(c).value|] == Utf8Encode(c).value
    ensures Utf8Decode(s, i) == Some((c, i + |Utf8Encode(c).value|))
  {
    var e := Utf8Encode(c).value;
    var units := s[i..i + |e|];
    assert s[i] == units[0];
    if c < 0x80 {
    } else if c < 0x800 {
      assert s[i + 1] == units[1];
    } else if c < 0x1_0000 {
      assert s[i + 1] == units[1] && s[i + 2] == units[2];
      ThreeUnits(c);
    } else {
      assert s[i + 1] == units[1] && s[i + 2] == units[2] && s[i + 3] == units[3];
      FourUnits(c);
    }
  }

  lemma Utf8Widths(s: seq<nat>, i: nat)
    requires Utf8Decode(s, i).Some?
    ensures var (c, next) := Utf8Decode(s, i).value;
            i < next <= |s| && c < TWO_32 && Utf8Encode(c).Some? && |Utf8Encode(c).value| == next - i
  {
  }

  lemma Utf8DecodesEncoded()
    ensures UTF8.DecodesEncoded()
  {
    forall s: seq<nat>, i: nat, c: nat | UTF8.encode(c).Some? && i + |UTF8.encode(c).value| <= |s|
      && s[i..i + |UTF8.encode(c).value|] == UTF8.encode(c).value
      ensures UTF8.decode(s, i) == Some((c, i + |UTF8.encode(c).value|))
    {
      Utf8Inverse(s, i, c);
    }
    hide Utf8Decode, Utf8Encode;
  }

  lemma Utf8DecodesForward()
    ensures UTF8.DecodesForward()
  {
    forall s: seq<nat>, i: nat | UTF8.decode(s, i).Some?
      ensures var (c, next) := UTF8.decode(s, i).value;
              i < next <= |s| && c < TWO_32 && UTF8.encode(c).Some? && |UTF8.encode(c).value| == next - i
    {
      Utf8Widths(s, i);
    }
    hide Utf8Decode, Utf8Encode;
  }

  lemma Utf8EncodesAscii()
    ensures UTF8.EncodesAscii() && UTF8.AsciiIsItself()
  {
    hide Utf8Decode;
  }

  /** UTF-8 meets every law that is asked of a codec. */
  lemma Utf8IsLawful()
    ensures UTF8.Lawful()
  {
    hide Codec.EncodesAscii, Codec.AsciiIsItself, Codec.DecodesEncoded, Codec.DecodesForward;
    Utf8DecodesEncoded();
    Utf8DecodesForward();
    Utf8EncodesAscii();
  }

  /** The table of section 3 of RFC 3629: how the bits of a code point are spread over the units. */
  lemma Utf8Table(a: nat, b: nat, c: nat, d: nat)
    requires b < 64 && c < 64 && d < 64
    ensures a < 0x80 ==> Utf8Encode(a) == Some([a])
    ensures 2 <= a < 32 ==> Utf8Encode(a * 64 + b) == Some([0xc0 + a, 0x80 + b])
    ensures a < 16 && IsScalar(a * 4096 + b * 64 + c) && a * 4096 + b * 64 + c >= 0x800 ==>
              Utf8Encode(a * 4096 + b * 64 + c) == Some([0xe0 + a, 0x80 + b, 0x80 + c])
    ensures a < 5 && 0x1_0000 <= a * 262144 + b * 4096 + c * 64 + d <= 0x10ffff ==>
              Utf8Encode(a * 262144 + b * 4096 + c * 64 + d) == Some([0xf0 + a, 0x80 + b, 0x80 + c, 0x80 + d])
  {
    FourDigits(a, b, c, d);
    hide IsScalar;
  }

  lemma FourDigits(a: nat, b: nat, c: nat, d: nat)
    requires b < 64 && c < 64 && d < 64
    ensures (a * 64 + b) / 64 == a && (a * 64 + b) % 64 == b
    ensures var three := a * 4096 + b * 64 + c;
            three / 64 % 64 == b && three % 64 == c && three / 4096 == a
    ensures var four := a * 262144 + b * 4096 + c * 64 + d;
            four / 64 % 64 == c && four % 64 == d && four / 4096 % 64 == b && four / 262144 == a
  {
    var three := a * 4096 + b * 64 + c;
    assert three / 64 == a * 64 + b;
    var four := a * 262144 + b * 4096 + c * 64 + d;
    assert four / 64 == a * 4096 + b * 64 + c;
    assert four / 4096 == a * 64 + b;
  }

  // ---------- UTF-16, section 2 of RFC 2781 ----------

  predicate IsHighSurrogate(u: nat) {
    0xd800 <= u < 0xdc00
  }

  predicate IsLowSurrogate(u: nat) {
    0xdc00 <= u < 0xe000
  }

  function Utf16Encode(c: nat): Option<seq<nat>> {
    if !IsScalar(c) then None
    else if c < 0x1_0000 then Some([c])
    else Some([0xd800 + (c - 0x1_0000) / 0x400, 0xdc00 + (c - 0x1_0000) % 0x400])
  }

  /** Refuses surrogates that do not form a pair. */
  function Utf16Decode(s: seq<nat>, i: nat): Option<(nat, nat)> {
    if i >= |s| then None
    else if s[i] < 0x1_0000 && IsScalar(s[i]) then Some((s[i], i + 1))
    else if IsHighSurrogate(s[i]) && i + 1 < |s| && IsLowSurrogate(s[i + 1]) then
      Some((0x1_0000 + (s[i] - 0xd800) * 0x400 + (s[i + 1] - 0xdc00), i + 2))
    else None
  }

  const UTF16: Codec := Codec(c => Utf16Encode(c), (s, i) => Utf16Decode(s, i))

  lemma Utf16Inverse(s: seq<nat>, i: nat, c: nat)
    requires Utf16Encode(c).Some? && i + |Utf16Encode(c).value| <= |s|
    requires s[i..i + |Utf16Encode(c).value|] == Utf16Encode(c).value
    ensures Utf16Decode(s, i) == Some((c, i + |Utf16Encode(c).value|))
  {
    var units := s[i..i + |Utf16Encode(c).value|];
    assert s[i] == units[0];
    if c >= 0x1_0000 {
      assert s[i + 1] == units[1];
    }
  }

  lemma Utf16Widths(s: seq<nat>, i: nat)
    requires Utf16Decode(s, i).Some?
    ensures var (c, next) := Utf16Decode(s, i).value;
            i < next <= |s| && c < TWO_32 && Utf16Encode(c).Some? && |Utf16Encode(c).value| == next - i
  {
  }

  /** UTF-16 meets every law that is asked of a codec. */
  lemma Utf16IsLawful()
    ensures UTF16.Lawful()
  {
    forall s: seq<nat>, i: nat, c: nat |
      UTF16.encode(c).Some? && i + |UTF16.encode(c).value| <= |s|
        && s[i..i + |UTF16.encode(c).value|] == UTF16.encode(c).value
      ensures UTF16.decode(s, i) == Some((c, i + |UTF16.encode(c).value|))
    {
      Utf16Inverse(s, i, c);
    }
    forall s: seq<nat>, i: nat | UTF16.decode(s, i).Some?
      ensures var (c, next) := UTF16.decode(s, i).value;
              i < next <= |s| && c < TWO_32 && UTF16.encode(c).Some? && |UTF16.encode(c).value| == next - i
    {
      Utf16Widths(s, i);
    }
    hide Utf16Decode;
  }

  /** Section 2.1 of RFC 2781: ten bits in each surrogate. */
  lemma Utf16Table(high: nat, low: nat)
    requires high < 0x400 && low < 0x400
    ensures Utf16Encode(0x1_0000 + high * 0x400 + low) == Some([0xd800 + high, 0xdc00 + low])
    ensures high < 0xd800 ==> Utf16Encode(high) == Some([high])
  {
  }
}
