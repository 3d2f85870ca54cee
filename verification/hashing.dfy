/** Digests: the hexadecimal rendering of a message digest, whole-file hashing fed in fixed-size
    chunks, and per-block hashing over consecutive fixed-size windows. The message-digest
    function itself (SHA-256) is a parameter `md`. */
module Hashing {
  import opened Bytes
  import opened Results

  const HEX_DIGITS: string := "0123456789abcdef"

  /** Chunk size of the whole-file reader. */
  const FILE_CHUNK: nat := 8192

  predicate IsHexDigit(c: char) {
    c in HEX_DIGITS
  }

  /** Lowercase, zero-padded, two characters per digest byte. */
  function Hex(d: seq<byte>): (r: string)
    ensures |r| == 2 * |d|
    ensures forall i :: 0 <= i < |d| ==> r[2 * i] == HEX_DIGITS[d[i] / 16] && r[2 * i + 1] == HEX_DIGITS[d[i] % 16]
  {
    if |d| == 0 then "" else [HEX_DIGITS[d[0] / 16], HEX_DIGITS[d[0] % 16]] + Hex(d[1..])
  }

  function DigitValue(c: char): (v: nat)
    ensures v < 16
  {
    if c == 'a' then 10 else if c == 'b' then 11 else if c == 'c' then 12
    else if c == 'd' then 13 else if c == 'e' then 14 else if c == 'f' then 15
    else if '0' <= c <= '9' then (c as int - '0' as int) else 0
  }

  /** Reads a hexadecimal rendering back into bytes; the inverse of `Hex`. */
  function Unhex(s: string): seq<byte>
    decreases |s|
  {
    if |s| < 2 then [] else [(16 * DigitValue(s[0]) + DigitValue(s[1])) as byte] + Unhex(s[2..])
  }

  lemma DigitValueOfDigit(v: nat)
    requires v < 16
    ensures DigitValue(HEX_DIGITS[v]) == v
  {
  }

  lemma {:induction false} HexRoundTrip(d: seq<byte>)
    ensures Unhex(Hex(d)) == d
  {
    if |d| > 0 {
      var r := Hex(d);
      assert r[2..] == Hex(d[1..]);
      HexRoundTrip(d[1..]);
      DigitValueOfDigit(d[0] / 16);
      DigitValueOfDigit(d[0] % 16);
    }
  }

  /** The rendering uses hexadecimal digits only. */
  lemma {:induction false} HexDigits(d: seq<byte>)
    ensures forall c :: c in Hex(d) ==> IsHexDigit(c)
  {
    if |d| > 0 {
      HexDigits(d[1..]);
      assert Hex(d) == [HEX_DIGITS[d[0] / 16], HEX_DIGITS[d[0] % 16]] + Hex(d[1..]);
    }
  }

  /** Two digests render the same text only if they are the same digest. */
  lemma HexInjective(a: seq<byte>, b: seq<byte>)
    requires Hex(a) == Hex(b)
    ensures a == b
  {
    HexRoundTrip(a);
    HexRoundTrip(b);
  }

  /** `sha256(input, length)`: the message digest of the input as lowercase hex text, from which
      the digest bytes read back. */
  function Sha256(md: seq<byte> -> seq<byte>, input: seq<byte>): (r: string)
    ensures Unhex(r) == md(input)
    ensures forall c :: c in r ==> IsHexDigit(c)
  {
    HexRoundTrip(md(input));
    HexDigits(md(input));
    Hex(md(input))
  }

  ghost predicate Injective(md: seq<byte> -> seq<byte>) {
    forall x, y :: md(x) == md(y) ==> x == y
  }

  /** A collision-free message digest gives collision-free hex digests. */
  lemma Sha256Injective(md: seq<byte> -> seq<byte>, x: seq<byte>, y: seq<byte>)
    requires Injective(md)
    requires Sha256(md, x) == Sha256(md, y)
    ensures x == y
  {
    HexInjective(md(x), md(y));
  }

  /** The state of an incremental digest computation (`EVP_MD_CTX`): the bytes absorbed so far. */
  datatype DigestContext = DigestContext(absorbed: seq<byte>) {
    function Update(chunk: seq<byte>): DigestContext {
      DigestContext(absorbed + chunk)
    }

    function Final(md: seq<byte> -> seq<byte>): string {
      Sha256(md, absorbed)
    }
  }

  datatype HashError = CannotOpen

  /** `sha256File`: feeds the file to the digest in `FILE_CHUNK`-byte reads until a read delivers
      nothing; a file that cannot be opened is an error. */
  method Sha256File(md: seq<byte> -> seq<byte>, file: Option<seq<byte>>) returns (r: Result<string, HashError>)
    ensures file.None? ==> r == Failure(CannotOpen)
    ensures file.Some? ==> r == Success(Sha256(md, file.value))
  {
    if file.None? {
      return Failure(CannotOpen);
    }
    var s := file.value;
    var ctx := DigestContext([]);
    var pos := 0;
    while pos < |s|
      invariant pos <= |s|
      invariant ctx.absorbed == s[..pos]
      decreases |s| - pos
    {
      var chunk := ReadAt(s, pos, FILE_CHUNK);
      ctx := ctx.Update(chunk);
      pos := pos + |chunk|;
    }
    assert s[..pos] == s;
    return Success(ctx.Final(md));
  }

  /** Number of `blockSize` windows of an `n`-byte file: the quotient rounded up. */
  function BlockCount(n: nat, blockSize: nat): nat
    requires blockSize > 0
  {
    (n + blockSize - 1) / blockSize
  }

  /** Block `k` of `s`: the bytes `[k * blockSize, (k + 1) * blockSize)`, clamped to the end. */
  function Window(s: seq<byte>, blockSize: nat, k: nat): seq<byte> {
    ReadAt(s, k * blockSize, blockSize)
  }

  /** A `BlockHash` record; its `path` field is constant per file and unused, so it is omitted. */
  datatype BlockHash = BlockHash(index: nat, hash: string)

  /** What `sha256FileBlocks` appends for the contents `s`. */
  function BlockHashes(md: seq<byte> -> seq<byte>, s: seq<byte>, blockSize: nat): (r: seq<BlockHash>)
    requires blockSize > 0
    ensures |r| == BlockCount(|s|, blockSize)
    ensures forall k :: 0 <= k < |r| ==> r[k].index == k
    ensures forall k :: 0 <= k < |r| ==> r[k].hash == Sha256(md, Window(s, blockSize, k))
  {
    seq(BlockCount(|s|, blockSize), (k: int) requires 0 <= k => BlockHash(k, Sha256(md, Window(s, blockSize, k))))
  }

  /** The whole-file digest of every file of a list, by id. */
  function AllDigests(md: seq<byte> -> seq<byte>, files: seq<seq<byte>>): (r: seq<string>)
    ensures |r| == |files| && forall i :: 0 <= i < |files| ==> r[i] == Sha256(md, files[i])
  {
    seq(|files|, (i: int) requires 0 <= i < |files| => Sha256(md, files[i]))
  }

  /** The block records of every file of a list, by id. */
  function AllBlockHashes(md: seq<byte> -> seq<byte>, files: seq<seq<byte>>, blockSize: nat): (r: seq<seq<BlockHash>>)
    requires blockSize > 0
    ensures |r| == |files| && forall i :: 0 <= i < |files| ==> r[i] == BlockHashes(md, files[i], blockSize)
  {
    seq(|files|, (i: int) requires 0 <= i < |files| => BlockHashes(md, files[i], blockSize))
  }

  lemma BlockCountExact(m: nat, blockSize: nat)
    requires blockSize > 0
    ensures BlockCount(m * blockSize, blockSize) == m
  {
    MulLe(m, m + 1, blockSize);
    assert (m + 1) * blockSize == m * blockSize + blockSize;
    DivBetween(m * blockSize + blockSize - 1, blockSize, m);
  }

  lemma MulLe(a: nat, b: nat, d: nat)
    requires a <= b
    ensures a * d <= b * d
  {
    assert b * d == a * d + (b - a) * d;
  }

  lemma BlockCountPartial(m: nat, blockSize: nat, p: nat)
    requires blockSize > 0
    requires m * blockSize < p <= m * blockSize + blockSize
    ensures BlockCount(p, blockSize) == m + 1
  {
    var n := p + blockSize - 1;
    assert (m + 1) * blockSize <= n < (m + 2) * blockSize;
    DivBetween(n, blockSize, m + 1);
  }

  lemma DivBetween(n: nat, d: nat, q: nat)
    requires d > 0
    requires q * d <= n < (q + 1) * d
    ensures n / d == q
  {
    var q2, r2 := n / d, n % d;
    assert n == q2 * d + r2 && 0 <= r2 < d;
    if q2 < q {
      assert (q2 + 1) * d == q2 * d + d;
      MulLe(q2 + 1, q, d);
    } else if q2 > q {
      assert (q + 1) * d == q * d + d;
      MulLe(q + 1, q2, d);
    }
  }

  /** The last window starts inside the file and ends at or past its end. */
  lemma {:induction false} BlockCountBounds(n: nat, blockSize: nat)
    requires blockSize > 0
    ensures BlockCount(n, blockSize) * blockSize >= n
    ensures n > 0 ==> (BlockCount(n, blockSize) - 1) * blockSize < n
    ensures n == 0 ==> BlockCount(n, blockSize) == 0
  {
    var c := BlockCount(n, blockSize);
    var t := n + blockSize - 1;
    assert t == c * blockSize + t % blockSize;
    assert t % blockSize < blockSize;
    if n == 0 {
      DivBetween(t, blockSize, 0);
    }
  }

  /** There are no more blocks than bytes. */
  lemma BlockCountAtMost(n: nat, blockSize: nat)
    requires blockSize > 0
    ensures BlockCount(n, blockSize) <= n
  {
    BlockCountBounds(n, blockSize);
    if n > 0 {
      MulLe(1, blockSize, BlockCount(n, blockSize) - 1);
    }
  }

  /** A non-empty window is one of the file's blocks. */
  lemma WindowInside(s: seq<byte>, blockSize: nat, k: nat)
    requires blockSize > 0 && |Window(s, blockSize, k)| > 0
    ensures k < BlockCount(|s|, blockSize)
  {
    BlockCountBounds(|s|, blockSize);
    if BlockCount(|s|, blockSize) <= k {
      MulLe(BlockCount(|s|, blockSize), k, blockSize);
    }
  }

  /** The first `m` windows of `s`, laid end to end. */
  function Joined(s: seq<byte>, blockSize: nat, m: nat): seq<byte> {
    if m == 0 then [] else Joined(s, blockSize, m - 1) + Window(s, blockSize, m - 1)
  }

  lemma {:induction false} JoinedPrefix(s: seq<byte>, blockSize: nat, m: nat)
    requires blockSize > 0
    ensures Joined(s, blockSize, m) == s[..Min(m * blockSize, |s|)]
  {
    if m > 0 {
      JoinedPrefix(s, blockSize, m - 1);
      var a := (m - 1) * blockSize;
      MulPred(m, blockSize);
      var x, y := Min(a, |s|), Min(a + blockSize, |s|);
      assert Window(s, blockSize, m - 1) == s[x..y];
      assert s[..x] + s[x..y] == s[..y];
    }
  }

  lemma MulPred(m: nat, d: nat)
    requires m > 0
    ensures m * d == (m - 1) * d + d
  {
  }

  /** The windows partition the file: laid end to end they give back every byte, in order. */
  lemma WindowsCover(s: seq<byte>, blockSize: nat)
    requires blockSize > 0
    ensures Joined(s, blockSize, BlockCount(|s|, blockSize)) == s
  {
    JoinedPrefix(s, blockSize, BlockCount(|s|, blockSize));
    BlockCountBounds(|s|, blockSize);
  }

  /** Every window is non-empty and at most `blockSize` long, and all but the last are full. */
  lemma WindowSizes(s: seq<byte>, blockSize: nat, k: nat)
    requires blockSize > 0
    requires k < BlockCount(|s|, blockSize)
    ensures 0 < |Window(s, blockSize, k)| <= blockSize
    ensures k + 1 < BlockCount(|s|, blockSize) ==> |Window(s, blockSize, k)| == blockSize
  {
    var c := BlockCount(|s|, blockSize);
    BlockCountBounds(|s|, blockSize);
    MulLe(k, c - 1, blockSize);
    if k + 1 < c {
      MulLe(k + 1, c - 1, blockSize);
      assert (k + 1) * blockSize == k * blockSize + blockSize;
    }
  }

  /** `sha256FileBlocks`: reads the file `blockSize` bytes at a time and appends one record per
      read that delivered bytes, numbered densely from zero. */
  method Sha256FileBlocks(md: seq<byte> -> seq<byte>, file: Option<seq<byte>>, blockSize: nat)
    returns (r: Result<seq<BlockHash>, HashError>)
    requires blockSize > 0
    ensures file.None? ==> r == Failure(CannotOpen)
    ensures file.Some? ==> r.Success? && |r.value| == BlockCount(|file.value|, blockSize)
    ensures file.Some? ==> forall k :: 0 <= k < |r.value| ==>
      r.value[k] == BlockHash(k, Sha256(md, Window(file.value, blockSize, k)))
  {
    if file.None? {
      return Failure(CannotOpen);
    }
    var s := file.value;
    var blocks: seq<BlockHash> := [];
    var pos := 0;
    while pos < |s|
      invariant pos <= |s|
      invariant pos < |s| ==> pos == |blocks| * blockSize
      invariant |blocks| == BlockCount(pos, blockSize)
      invariant forall k :: 0 <= k < |blocks| ==> blocks[k] == BlockHash(k, Sha256(md, Window(s, blockSize, k)))
      decreases |s| - pos
    {
      var buffer := ReadAt(s, pos, blockSize);
      assert buffer == Window(s, blockSize, |blocks|);
      BlockStep(|s|, pos, |blocks|, blockSize);
      blocks := blocks + [BlockHash(|blocks|, Sha256(md, buffer))];
      pos := pos + |buffer|;
    }
    return Success(blocks);
  }

  /** One read of the block loop: the position after it counts one more block, and, unless the
      read reached the end, lies on the next block boundary. */
  lemma BlockStep(len: nat, pos: nat, n: nat, blockSize: nat)
    requires blockSize > 0 && pos < len
    requires pos == n * blockSize && n == BlockCount(pos, blockSize)
    ensures var next := pos + Min(blockSize, len - pos);
      n + 1 == BlockCount(next, blockSize) && (next < len ==> next == (n + 1) * blockSize)
  {
    MulPred(n + 1, blockSize);
    if pos + blockSize <= len {
      BlockCountExact(n + 1, blockSize);
    } else {
      BlockCountPartial(n, blockSize, len);
    }
  }
}
