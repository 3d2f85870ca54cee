/** The instruction-stream opcodes and the fixed-width integer fields of the wire format. */
module Wire {
  import opened Bytes

  const COPY_FILE: byte := 0x01
  const COPY_BLOCK: byte := 0x02
  const WRITE_BLOCK: byte := 0x03
  const DONE: byte := 0x04

  /** Width of `size_t` on the platform the format was written for (x86-64). */
  const SIZE_BYTES: nat := 8
  const WORD: nat := 0x1_0000_0000_0000_0000

  function Pow256(n: nat): (r: nat)
    ensures r > 0
  {
    if n == 0 then 1 else 256 * Pow256(n - 1)
  }

  /** The `width` least significant bytes of `x`, least significant first. */
  function LittleEndian(x: nat, width: nat): (r: seq<byte>)
    ensures |r| == width
  {
    if width == 0 then [] else [(x % 256) as byte] + LittleEndian(x / 256, width - 1)
  }

  function FromLittleEndian(s: seq<byte>): nat {
    if |s| == 0 then 0 else s[0] as nat + 256 * FromLittleEndian(s[1..])
  }

  lemma {:induction false} FromLittleEndianBound(s: seq<byte>)
    ensures FromLittleEndian(s) < Pow256(|s|)
  {
    if |s| > 0 {
      FromLittleEndianBound(s[1..]);
    }
  }

  lemma {:induction false} LittleEndianRoundTrip(x: nat, width: nat)
    requires x < Pow256(width)
    ensures FromLittleEndian(LittleEndian(x, width)) == x
  {
    if width > 0 {
      var r := LittleEndian(x, width);
      assert r[1..] == LittleEndian(x / 256, width - 1);
      LittleEndianRoundTrip(x / 256, width - 1);
    }
  }

  lemma {:induction false} FromLittleEndianRoundTrip(s: seq<byte>)
    ensures LittleEndian(FromLittleEndian(s), |s|) == s
  {
    if |s| > 0 {
      var x := FromLittleEndian(s);
      FromLittleEndianRoundTrip(s[1..]);
      assert x % 256 == s[0] as nat;
      assert x / 256 == FromLittleEndian(s[1..]);
    }
  }

  lemma Pow256Size()
    ensures Pow256(SIZE_BYTES) == WORD
  {
  }

  /** `writeToBuffer(x, buffer)` for a `size_t` value: the value is first reduced to 64 bits. */
  function WriteSize(x: nat): (r: seq<byte>)
    ensures |r| == SIZE_BYTES
  {
    LittleEndian(x % WORD, SIZE_BYTES)
  }

  /** `readFromBuffer<size_t>(buffer)`: the first eight bytes read back as a `size_t`. */
  function ReadSize(s: seq<byte>): (x: nat)
    requires |s| >= SIZE_BYTES
    ensures x < WORD
  {
    FromLittleEndianBound(s[..SIZE_BYTES]);
    Pow256Size();
    FromLittleEndian(s[..SIZE_BYTES])
  }

  /** Reading back a written field yields the value reduced to 64 bits. */
  lemma SizeRoundTrip(x: nat)
    ensures ReadSize(WriteSize(x)) == x % WORD
    ensures x < WORD ==> ReadSize(WriteSize(x)) == x
  {
    Pow256Size();
    var w := WriteSize(x);
    assert w[..SIZE_BYTES] == w;
    LittleEndianRoundTrip(x % WORD, SIZE_BYTES);
  }

  /** Every eight-byte field is the encoding of the value read from it. */
  lemma SizeBytesRoundTrip(s: seq<byte>)
    requires |s| == SIZE_BYTES
    ensures WriteSize(ReadSize(s)) == s
  {
    assert s[..SIZE_BYTES] == s;
    FromLittleEndianRoundTrip(s);
  }

  /** A size read from the front of a longer buffer is the size written there. */
  lemma ReadSizePrefix(x: nat, t: seq<byte>)
    requires x < WORD
    ensures ReadSize(WriteSize(x) + t) == x
  {
    assert (WriteSize(x) + t)[..SIZE_BYTES] == WriteSize(x);
    SizeRoundTrip(x);
    assert ReadSize(WriteSize(x)) == x;
    assert WriteSize(x)[..SIZE_BYTES] == WriteSize(x);
  }
}
