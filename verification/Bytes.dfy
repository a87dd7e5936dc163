// Machine integers and their little-endian encodings.
module Bytes {
  type byte = b: int | 0 <= b < 256

  const U16: int := 0x1_0000
  const U32: int := 0x1_0000_0000
  const U64: int := 0x1_0000_0000_0000_0000

  function Pow256(k: nat): nat {
    if k == 0 then 1 else 256 * Pow256(k - 1)
  }

  // The low `width` bytes of `n`, least significant first.
  function LittleEndian(n: nat, width: nat): (s: seq<byte>)
    ensures |s| == width
  {
    if width == 0 then [] else [n % 256] + LittleEndian(n / 256, width - 1)
  }

  function FromLittleEndian(s: seq<byte>): nat {
    if s == [] then 0 else s[0] + 256 * FromLittleEndian(s[1..])
  }

  lemma {:induction false} LittleEndianRoundTrip(n: nat, width: nat)
    requires n < Pow256(width)
    ensures FromLittleEndian(LittleEndian(n, width)) == n
  {
    if width > 0 {
      LittleEndianRoundTrip(n / 256, width - 1);
      assert LittleEndian(n, width)[1..] == LittleEndian(n / 256, width - 1);
    }
  }

  // The byte at place k weighs 256^k.
  lemma {:induction false} LaterBytesWeighMore(s: seq<byte>, y: byte)
    ensures FromLittleEndian(s + [y]) == FromLittleEndian(s) + Pow256(|s|) * y
  {
    if s == [] {
      assert [y] == s + [y];
    } else {
      LaterBytesWeighMore(s[1..], y);
      assert (s + [y])[1..] == s[1..] + [y];
      assert 256 * (Pow256(|s| - 1) * y) == Pow256(|s|) * y;
    }
  }

  // Every field is the encoding of the number it is read as.
  lemma {:induction false} FieldIsEncoded(s: seq<byte>)
    ensures LittleEndian(FromLittleEndian(s), |s|) == s && FromLittleEndian(s) < Pow256(|s|)
  {
    if s != [] {
      FieldIsEncoded(s[1..]);
      assert s == [s[0]] + s[1..];
    }
  }

  // A hexadecimal digit as it is printed.
  function HexChar(d: nat): byte
    requires d < 16
  {
    if d < 10 then '0' as int + d else 'a' as int + (d - 10)
  }

  // The letters among the hexadecimal digits, in lower case.
  function LowerCase(b: byte): byte {
    if 'A' as int <= b <= 'F' as int then b + 32 else b
  }

  function Lowered(s: seq<byte>): (r: seq<byte>)
    ensures |r| == |s|
  {
    seq(|s|, i requires 0 <= i < |s| => LowerCase(s[i]))
  }

  // The bytes of a text in ASCII.
  function Ascii(text: string): (s: seq<byte>)
    requires forall i :: 0 <= i < |text| ==> text[i] as int < 128
    ensures |s| == |text|
  {
    seq(|text|, i requires 0 <= i < |text| => text[i] as int as byte)
  }

  lemma FieldWidths()
    ensures Pow256(4) == U32 && Pow256(8) == U64
  {
    assert Pow256(2) == 65536;
    assert Pow256(4) == 65536 * 65536;
    assert Pow256(6) == 65536 * 65536 * 65536;
  }
}
