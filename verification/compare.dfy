/** The byte comparators that confirm a digest match before anything is copied. A file is given as
    `Option<seq<byte>>`: `None` when it cannot be opened. */
module Compare {
  import opened Bytes
  import opened Results

  /** Buffer size of the whole-file comparison. */
  const COMPARE_CHUNK: nat := 32 * 1024

  /** `validateEqual`: both files open, their sizes agree, then `COMPARE_CHUNK`-byte reads of the
      two are compared until both streams reach end-of-file. */
  method ValidateEqual(a: Option<seq<byte>>, b: Option<seq<byte>>) returns (equal: bool)
    ensures equal <==> a.Some? && b.Some? && a.value == b.value
  {
    if a.None? || b.None? {
      return false;
    }
    var x, y := a.value, b.value;
    if |x| != |y| {
      return false;
    }
    var pos := 0;
    while true
      invariant pos <= |x|
      invariant x[..pos] == y[..pos]
      decreases |x| - pos
    {
      var buffer1 := ReadAt(x, pos, COMPARE_CHUNK);
      var buffer2 := ReadAt(y, pos, COMPARE_CHUNK);
      if !Memcmp(buffer1, buffer2, |buffer1|) {
        assert x[pos..pos + |buffer1|] == buffer1 && y[pos..pos + |buffer1|] == buffer2;
        assert buffer1 != buffer2;
        return false;
      }
      // a read that asked for more than remained sets end-of-file
      var eof1 := pos + COMPARE_CHUNK > |x|;
      var eof2 := pos + COMPARE_CHUNK > |y|;
      assert x[..pos + |buffer1|] == x[..pos] + buffer1;
      assert y[..pos + |buffer1|] == y[..pos] + buffer2;
      pos := pos + |buffer1|;
      if eof1 && eof2 {
        assert x == x[..pos] && y == y[..pos];
        return true;
      }
      if eof1 || eof2 {
        return false;
      }
    }
  }

  /** `validateBlockEqual(a, b, offset, blockSize)`: both files open, and reads of up to
      `blockSize` bytes at `offset` in each deliver the same count and the same bytes. */
  function ValidateBlockEqual(a: Option<seq<byte>>, b: Option<seq<byte>>, offset: nat, blockSize: nat): (equal: bool)
    ensures equal <==> a.Some? && b.Some? && ReadAt(a.value, offset, blockSize) == ReadAt(b.value, offset, blockSize)
  {
    if a.None? || b.None? then false
    else
      var buffer1 := ReadAt(a.value, offset, blockSize);
      var buffer2 := ReadAt(b.value, offset, blockSize);
      |buffer1| == |buffer2| && Memcmp(buffer1, buffer2, |buffer1|)
  }

  /** Reading at one offset in both files: when the offset lies in both, a match means the two files
      agree on `blockSize` bytes there, or both end at the same point inside the window. */
  lemma BlockEqualAgreement(a: seq<byte>, b: seq<byte>, offset: nat, blockSize: nat)
    requires ValidateBlockEqual(Some(a), Some(b), offset, blockSize)
    requires offset < |a| && blockSize > 0
    ensures offset < |b|
    ensures Min(|a|, offset + blockSize) == Min(|b|, offset + blockSize)
    ensures forall i :: offset <= i < Min(|a|, offset + blockSize) ==> a[i] == b[i]
  {
    var r := ReadAt(a, offset, blockSize);
    assert |r| > 0 && |ReadAt(b, offset, blockSize)| == |r|;
    assert forall i :: offset <= i < Min(|a|, offset + blockSize) ==> r[i - offset] == a[i];
  }
}
