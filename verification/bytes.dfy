/** Bytes, and reads of a byte range from a file's contents. */
module Bytes {

  type byte = b: int | 0 <= b < 256

  function Min(a: int, b: int): int {
    if a <= b then a else b
  }

  /** What `seekg(offset)` followed by `read(buffer, n)` delivers from a stream over `s`:
      a seek past the end is allowed and then nothing is read. */
  function ReadAt(s: seq<byte>, offset: nat, n: nat): (r: seq<byte>)
    ensures |r| == if offset >= |s| then 0 else Min(n, |s| - offset)
    ensures forall i :: 0 <= i < |r| ==> offset + i < |s| && r[i] == s[offset + i]
  {
    s[Min(offset, |s|)..Min(offset + n, |s|)]
  }

  /** `std::memcmp(x, y, count) == 0`. */
  predicate Memcmp(x: seq<byte>, y: seq<byte>, count: nat)
    requires count <= |x| && count <= |y|
  {
    forall i :: 0 <= i < count ==> x[i] == y[i]
  }
}
