/** The inverted indexes built from the old tree's digests: whole-file digest to old file ids, and
    block digest to (old file id, block index) pairs, each list in the order the scan met them. */
module Index {
  import opened Hashing

  /** `index[h]` through `operator[]`: a digest that was never inserted has no candidates. */
  function Lookup<V>(m: map<string, seq<V>>, h: string): seq<V> {
    if h in m then m[h] else []
  }

  predicate Ascending(s: seq<nat>) {
    forall i, j :: 0 <= i < j < |s| ==> s[i] < s[j]
  }

  /** Reference list: the positions of `digests` holding `h`, in increasing order. */
  function IdsWith(digests: seq<string>, h: string): seq<nat>
    decreases |digests|
  {
    if |digests| == 0 then []
    else
      var n := |digests| - 1;
      IdsWith(digests[..n], h) + (if digests[n] == h then [n] else [])
  }

  /** The whole-file index: file `i` of the old list is appended under its digest, for `i` in
      increasing order. */
  function FileIndex(digests: seq<string>): (r: map<string, seq<nat>>)
    ensures r.Keys == set i | 0 <= i < |digests| :: digests[i]
    ensures forall h :: Lookup(r, h) == IdsWith(digests, h)
    decreases |digests|
  {
    if |digests| == 0 then map[]
    else
      var n := |digests| - 1;
      var m := FileIndex(digests[..n]);
      assert (set i | 0 <= i < |digests| :: digests[i]) == (set i | 0 <= i < n :: digests[..n][i]) + {digests[n]};
      m[digests[n] := Lookup(m, digests[n]) + [n]]
  }

  lemma {:induction false} IdsWithExact(digests: seq<string>, h: string)
    ensures forall i :: i in IdsWith(digests, h) <==> 0 <= i < |digests| && digests[i] == h
    ensures Ascending(IdsWith(digests, h))
    decreases |digests|
  {
    if |digests| > 0 {
      var n := |digests| - 1;
      var pre := IdsWith(digests[..n], h);
      IdsWithExact(digests[..n], h);
      assert forall i :: 0 <= i < n ==> digests[..n][i] == digests[i];
      assert forall x :: x in pre ==> x < n;
      var r := IdsWith(digests, h);
      assert r == pre + (if digests[n] == h then [n] else []);
      forall a, b | 0 <= a < b < |r|
        ensures r[a] < r[b]
      {
        if b < |pre| {
        } else {
          assert r[a] in pre;
        }
      }
    }
  }

  /** The ids listed under a digest are exactly the old files having that digest, in ascending
      order, so every old id is listed once, under its own digest. */
  lemma FileIndexExact(digests: seq<string>, h: string)
    ensures forall i :: i in Lookup(FileIndex(digests), h) <==> 0 <= i < |digests| && digests[i] == h
    ensures Ascending(Lookup(FileIndex(digests), h))
  {
    IdsWithExact(digests, h);
  }

  /** Where one block digest was met: old file `file`, block `block`. */
  datatype Location = Location(file: nat, block: nat, hash: string)

  function Locate(i: nat, blocks: seq<BlockHash>): seq<Location> {
    seq(|blocks|, (j: int) requires 0 <= j < |blocks| => Location(i, blocks[j].index, blocks[j].hash))
  }

  /** Reference order: the block records of every old file, file by file, each file's blocks in
      the order they were hashed. */
  function Scan(all: seq<seq<BlockHash>>): seq<Location>
    decreases |all|
  {
    if |all| == 0 then [] else Scan(all[..|all| - 1]) + Locate(|all| - 1, all[|all| - 1])
  }

  /** The locations in `ls` whose digest is `h`, in order. */
  function Hits(ls: seq<Location>, h: string): seq<(nat, nat)>
    decreases |ls|
  {
    if |ls| == 0 then []
    else
      var last := ls[|ls| - 1];
      Hits(ls[..|ls| - 1], h) + (if last.hash == h then [(last.file, last.block)] else [])
  }

  lemma {:induction false} HitsAppend(a: seq<Location>, b: seq<Location>, h: string)
    ensures Hits(a + b, h) == Hits(a, h) + Hits(b, h)
    decreases |b|
  {
    if |b| > 0 {
      assert (a + b)[..|a + b| - 1] == a + b[..|b| - 1];
      HitsAppend(a, b[..|b| - 1], h);
    } else {
      assert a + b == a;
    }
  }

  lemma LocateLast(i: nat, blocks: seq<BlockHash>, h: string)
    requires |blocks| > 0
    ensures Hits(Locate(i, blocks), h) == Hits(Locate(i, blocks[..|blocks| - 1]), h) +
      (if blocks[|blocks| - 1].hash == h then [(i, blocks[|blocks| - 1].index)] else [])
  {
    assert Locate(i, blocks)[..|blocks| - 1] == Locate(i, blocks[..|blocks| - 1]);
  }

  /** The inner loop over one old file's block records. */
  function AddBlocks(m: map<string, seq<(nat, nat)>>, i: nat, blocks: seq<BlockHash>): (r: map<string, seq<(nat, nat)>>)
    ensures forall h :: Lookup(r, h) == Lookup(m, h) + Hits(Locate(i, blocks), h)
    decreases |blocks|
  {
    if |blocks| == 0 then m
    else
      var n := |blocks| - 1;
      var m' := AddBlocks(m, i, blocks[..n]);
      var b := blocks[n];
      var r := m'[b.hash := Lookup(m', b.hash) + [(i, b.index)]];
      AddBlocksStep(m, m', r, i, blocks);
      r
  }

  lemma AddBlocksStep(m: map<string, seq<(nat, nat)>>, m': map<string, seq<(nat, nat)>>,
                      r: map<string, seq<(nat, nat)>>, i: nat, blocks: seq<BlockHash>)
    requires |blocks| > 0
    requires forall h :: Lookup(m', h) == Lookup(m, h) + Hits(Locate(i, blocks[..|blocks| - 1]), h)
    requires r == m'[blocks[|blocks| - 1].hash := Lookup(m', blocks[|blocks| - 1].hash) + [(i, blocks[|blocks| - 1].index)]]
    ensures forall h :: Lookup(r, h) == Lookup(m, h) + Hits(Locate(i, blocks), h)
  {
    forall h
      ensures Lookup(r, h) == Lookup(m, h) + Hits(Locate(i, blocks), h)
    {
      LocateLast(i, blocks, h);
      var b := blocks[|blocks| - 1];
      if b.hash == h {
        assert Lookup(r, h) == Lookup(m', h) + [(i, b.index)];
      } else {
        assert Lookup(r, h) == Lookup(m', h);
      }
    }
  }

  /** The block index: for each old file in id order, each of its block records is appended
      under the record's digest. */
  function BlockIndex(all: seq<seq<BlockHash>>): (r: map<string, seq<(nat, nat)>>)
    ensures forall h :: Lookup(r, h) == Hits(Scan(all), h)
    decreases |all|
  {
    if |all| == 0 then map[]
    else
      var n := |all| - 1;
      var m := BlockIndex(all[..n]);
      assert forall h :: Hits(Scan(all), h) == Hits(Scan(all[..n]), h) + Hits(Locate(n, all[n]), h) by {
        forall h { HitsAppend(Scan(all[..n]), Locate(n, all[n]), h); }
      }
      AddBlocks(m, n, all[n])
  }

  lemma {:induction false} HitsMembership(ls: seq<Location>, h: string, f: nat, k: nat)
    ensures (f, k) in Hits(ls, h) <==> Location(f, k, h) in ls
    decreases |ls|
  {
    if |ls| > 0 {
      HitsMembership(ls[..|ls| - 1], h, f, k);
      assert ls == ls[..|ls| - 1] + [ls[|ls| - 1]];
    }
  }

  lemma {:induction false} ScanMembership(all: seq<seq<BlockHash>>, f: nat, k: nat, h: string)
    ensures Location(f, k, h) in Scan(all) <==>
      f < |all| && exists j :: 0 <= j < |all[f]| && all[f][j] == BlockHash(k, h)
    decreases |all|
  {
    if |all| > 0 {
      var n := |all| - 1;
      ScanMembership(all[..n], f, k, h);
      LocateMembership(n, all[n], f, k, h);
    }
  }

  /** `(f, k)` is a candidate under digest `h` exactly when block record `k` of old file `f`
      carries digest `h`. */
  lemma BlockIndexMembership(all: seq<seq<BlockHash>>, h: string, f: nat, k: nat)
    ensures (f, k) in Lookup(BlockIndex(all), h) <==>
      f < |all| && exists j :: 0 <= j < |all[f]| && all[f][j] == BlockHash(k, h)
  {
    HitsMembership(Scan(all), h, f, k);
    ScanMembership(all, f, k, h);
  }

  lemma LocateMembership(i: nat, blocks: seq<BlockHash>, f: nat, k: nat, h: string)
    ensures Location(f, k, h) in Locate(i, blocks) <==>
      f == i && exists j :: 0 <= j < |blocks| && blocks[j] == BlockHash(k, h)
  {
    var ls := Locate(i, blocks);
    if Location(f, k, h) in ls {
      var j :| 0 <= j < |ls| && ls[j] == Location(f, k, h);
      assert blocks[j] == BlockHash(k, h);
    }
    if f == i && exists j :: 0 <= j < |blocks| && blocks[j] == BlockHash(k, h) {
      var j :| 0 <= j < |blocks| && blocks[j] == BlockHash(k, h);
      assert ls[j] == Location(f, k, h);
    }
  }
}
