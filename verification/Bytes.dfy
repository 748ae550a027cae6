/** The big-endian copy macros of common/byte_stream.h. */
module Bytes {
  import opened Integers

  function Pow256(n: nat): (r: nat)
    ensures r > 0
  {
    if n == 0 then 1 else 256 * Pow256(n - 1)
  }

  /** Shift the value read so far left by eight bits and put the next byte in. */
  function FromBE(s: seq<byte>): nat {
    if s == [] then 0 else FromBE(s[..|s| - 1]) * 256 + s[|s| - 1]
  }

  /** The low n bytes of v, most significant first. */
  function ToBE(v: nat, n: nat): (s: seq<byte>)
    ensures |s| == n
  {
    if n == 0 then [] else ToBE(v / 256, n - 1) + [v % 256]
  }

  lemma {:induction false} FromToBE(v: nat, n: nat)
    requires v < Pow256(n)
    ensures FromBE(ToBE(v, n)) == v
  {
    if n > 0 {
      FromToBE(v / 256, n - 1);
      assert ToBE(v, n)[..n - 1] == ToBE(v / 256, n - 1);
    }
  }

  lemma {:induction false} ToFromBE(s: seq<byte>)
    ensures FromBE(s) < Pow256(|s|)
    ensures ToBE(FromBE(s), |s|) == s
  {
    if s != [] {
      ToFromBE(s[..|s| - 1]);
    }
  }

  lemma Widths()
    ensures Pow256(1) == 0x100
    ensures Pow256(2) == TWO_16
    ensures Pow256(4) == TWO_32
    ensures Pow256(8) == TWO_64
  {
    assert Pow256(3) == 0x100_0000;
    assert Pow256(5) == 0x100_0000_0000;
    assert Pow256(7) == 0x100_0000_0000_0000;
  }

  function U16At(data: seq<byte>, offset: nat): (v: nat)
    requires offset + 2 <= |data|
    ensures v < TWO_16
  {
    ToFromBE(data[offset..offset + 2]);
    Widths();
    FromBE(data[offset..offset + 2])
  }

  function U32At(data: seq<byte>, offset: nat): (v: nat)
    requires offset + 4 <= |data|
    ensures v < TWO_32
  {
    ToFromBE(data[offset..offset + 4]);
    Widths();
    FromBE(data[offset..offset + 4])
  }

  function U64At(data: seq<byte>, offset: nat): (v: nat)
    requires offset + 8 <= |data|
    ensures v < TWO_64
  {
    ToFromBE(data[offset..offset + 8]);
    Widths();
    FromBE(data[offset..offset + 8])
  }

  /** Fields in plain numbers. */
  lemma FieldValues(data: seq<byte>, offset: nat)
    ensures offset + 2 <= |data| ==> U16At(data, offset) == (data[offset] as nat) * 0x100 + data[offset + 1]
    ensures offset + 4 <= |data| ==>
              U32At(data, offset) ==
              (data[offset] as nat) * 0x100_0000 + (data[offset + 1] as nat) * 0x1_0000
                + (data[offset + 2] as nat) * 0x100 + data[offset + 3]
    ensures offset + 8 <= |data| ==>
              U64At(data, offset) == U32At(data, offset) * 0x1_0000_0000 + U32At(data, offset + 4)
  {
    if offset + 2 <= |data| {
      TwoBytes(data[offset..offset + 2]);
    }
    if offset + 4 <= |data| {
      FourBytes(data[offset..offset + 4]);
    }
    if offset + 8 <= |data| {
      EightBytes(data[offset..offset + 8]);
      assert data[offset..offset + 8][..4] == data[offset..offset + 4];
      assert data[offset..offset + 8][4..] == data[offset + 4..offset + 8];
    }
  }

  lemma TwoBytes(s: seq<byte>)
    requires |s| == 2
    ensures FromBE(s) == (s[0] as nat) * 0x100 + s[1]
  {
    assert s[..1][..0] == [];
    assert FromBE(s[..1]) == s[0];
  }

  lemma FourBytes(s: seq<byte>)
    requires |s| == 4
    ensures FromBE(s) == (s[0] as nat) * 0x100_0000 + (s[1] as nat) * 0x1_0000 + (s[2] as nat) * 0x100 + s[3]
  {
    TwoBytes(s[..2]);
    assert s[..3][..2] == s[..2];
    assert FromBE(s[..3]) == FromBE(s[..2]) * 0x100 + s[2];
    assert FromBE(s) == FromBE(s[..3]) * 0x100 + s[3];
  }

  lemma EightBytes(s: seq<byte>)
    requires |s| == 8
    ensures FromBE(s) == FromBE(s[..4]) * 0x1_0000_0000 + FromBE(s[4..])
  {
    assert FromBE(s) == FromBE(s[..7]) * 0x100 + s[7];
    assert s[..7][..6] == s[..6] && s[..6][..5] == s[..5] && s[..5][..4] == s[..4];
    assert FromBE(s[..7]) == FromBE(s[..6]) * 0x100 + s[6];
    assert FromBE(s[..6]) == FromBE(s[..5]) * 0x100 + s[5];
    assert FromBE(s[..5]) == FromBE(s[..4]) * 0x100 + s[4];
    FourBytes(s[4..]);
  }

  lemma SliceMiddle<T>(a: seq<T>, b: seq<T>, c: seq<T>, i: nat, k: nat)
    requires i + k <= |b|
    ensures (a + b + c)[|a| + i..|a| + i + k] == b[i..i + k]
  {
  }

  lemma SliceOfSlice<T>(s: seq<T>, from: nat, to: nat, i: nat, k: nat)
    requires from <= to <= |s| && i + k <= to - from
    ensures s[from..to][i..i + k] == s[from + i..from + i + k]
  {
    var a, b := s[from..to][i..i + k], s[from + i..from + i + k];
    forall j | 0 <= j < k
      ensures a[j] == b[j]
    {
      assert a[j] == s[from..to][i + j];
    }
  }

  lemma Join<T>(s: seq<T>, a: nat, b: nat, c: nat)
    requires a <= b <= c <= |s|
    ensures s[a..b] + s[b..c] == s[a..c]
  {
  }

  /** Reading back a field that was written at its offset. */
  lemma U16AtWritten(data: seq<byte>, offset: nat, v: nat)
    requires v < TWO_16
    requires offset + 2 <= |data| && data[offset..offset + 2] == ToBE(v, 2)
    ensures U16At(data, offset) == v
  {
    Widths();
    FromToBE(v, 2);
  }

  lemma U32AtWritten(data: seq<byte>, offset: nat, v: nat)
    requires v < TWO_32
    requires offset + 4 <= |data| && data[offset..offset + 4] == ToBE(v, 4)
    ensures U32At(data, offset) == v
  {
    Widths();
    FromToBE(v, 4);
  }

  lemma U64AtWritten(data: seq<byte>, offset: nat, v: nat)
    requires v < TWO_64
    requires offset + 8 <= |data| && data[offset..offset + 8] == ToBE(v, 8)
    ensures U64At(data, offset) == v
  {
    Widths();
    FromToBE(v, 8);
  }

  /** Writing what was read from a field gives its bytes. */
  lemma U16AtBytes(data: seq<byte>, offset: nat)
    requires offset + 2 <= |data|
    ensures ToBE(U16At(data, offset), 2) == data[offset..offset + 2]
  {
    ToFromBE(data[offset..offset + 2]);
  }

  lemma U32AtBytes(data: seq<byte>, offset: nat)
    requires offset + 4 <= |data|
    ensures ToBE(U32At(data, offset), 4) == data[offset..offset + 4]
  {
    ToFromBE(data[offset..offset + 4]);
  }

  lemma U64AtBytes(data: seq<byte>, offset: nat)
    requires offset + 8 <= |data|
    ensures ToBE(U64At(data, offset), 8) == data[offset..offset + 8]
  {
    ToFromBE(data[offset..offset + 8]);
  }

  lemma {:induction false} DropLowByte(v: nat, n: nat)
    requires n > 0
    ensures ToBE(v, n)[..n - 1] == ToBE(v / 256, n - 1)
  {
  }

  /** The first four bytes of a 64-bit field hold its top 32 bits. */
  lemma HighHalfOfU64(v: nat)
    ensures ToBE(v, 8)[..4] == ToBE(v / TWO_32, 4)
  {
    DropLowByte(v, 8);
    DropLowByte(v / 0x100, 7);
    assert v / 0x100 / 256 == v / 0x1_0000;
    DropLowByte(v / 0x1_0000, 6);
    assert v / 0x1_0000 / 256 == v / 0x100_0000;
    DropLowByte(v / 0x100_0000, 5);
    assert v / 0x100_0000 / 256 == v / 0x1_0000_0000;
    hide ToBE;
    var a, b, c, d := ToBE(v, 8), ToBE(v / 0x100, 7), ToBE(v / 0x1_0000, 6), ToBE(v / 0x100_0000, 5);
    assert a[..4] == b[..4] == c[..4] == d[..4];
  }

  /** The first two bytes of a 64-bit field hold its top 16 bits. */
  lemma TopOfU64(v: nat)
    ensures ToBE(v, 8)[..2] == ToBE(v / 0x1_0000_0000_0000, 2)
  {
    HighHalfOfU64(v);
    DropLowByte(v / 0x1_0000_0000, 4);
    assert v / 0x1_0000_0000 / 256 == v / 0x100_0000_0000;
    DropLowByte(v / 0x100_0000_0000, 3);
    assert v / 0x100_0000_0000 / 256 == v / 0x1_0000_0000_0000;
    hide ToBE;
    var a, b, c := ToBE(v, 8), ToBE(v / 0x1_0000_0000, 4), ToBE(v / 0x100_0000_0000, 3);
    assert a[..2] == a[..4][..2];
    assert b[..2] == b[..3][..2] == c[..2];
  }

  function Zeros(n: nat): (zeros: seq<byte>)
    ensures |zeros| == n
  {
    seq(n, _ => 0)
  }
}
