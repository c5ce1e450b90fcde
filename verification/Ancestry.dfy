/** The paths hidden in parent hashes, and the height index over them. */
module Ancestry {
  import opened Bytes
  import opened Types
  import opened Work
  import opened ChainState
  import opened Consensus
  import opened ForkChoice

  /** The walk from a stored block to its root by parent hashes. */
  ghost function Ancestors(hash: Header -> Hash, blocks: map<Hash, Block>, work: map<Hash, int>, h: Hash): seq<Hash>
    requires Tree(hash, blocks, work) && h in blocks
    decreases blocks[h].header.height
  {
    assert LinkedAt(hash, blocks, work, h);
    if blocks[h].header.height == 0 then [h]
    else [h] + Ancestors(hash, blocks, work, blocks[h].header.parentHash)
  }

  /** The sum of the block works along a path of stored blocks. */
  function PathWork(blocks: map<Hash, Block>, path: seq<Hash>): int
    requires forall i :: 0 <= i < |path| ==> path[i] in blocks
  {
    if path == [] then 0 else CalcBlockWork(blocks[path[0]].header.target) + PathWork(blocks, path[1..])
  }

  /** One link of a walk: parent hash, next lower height, strictly earlier timestamp. */
  predicate Follows(blocks: map<Hash, Block>, child: Hash, parent: Hash) {
    child in blocks && parent in blocks
    && blocks[child].header.parentHash == parent && Extends(blocks[parent].header, blocks[child].header)
  }

  /** From h down to a root: height + 1 blocks, each following the one before, the last with no parent. */
  ghost predicate IsWalk(blocks: map<Hash, Block>, h: Hash, path: seq<Hash>) {
    && h in blocks && |path| == blocks[h].header.height + 1 && path[0] == h
    && (forall i :: 0 <= i < |path| ==>
          path[i] in blocks && blocks[path[i]].header.height == blocks[h].header.height - i)
    && (forall i :: 0 <= i < |path| - 1 ==> Follows(blocks, path[i], path[i + 1]))
    && blocks[path[|path| - 1]].header.parentHash == ZERO_HASH
  }

  /**
   * Every stored block's walk ends at a root after exactly height + 1 blocks, each one lower and strictly
   * earlier than the one before, and the recorded total work is the sum of the works along it.
   */
  lemma {:induction false} AncestorWalk(hash: Header -> Hash, blocks: map<Hash, Block>, work: map<Hash, int>, h: Hash)
    requires Tree(hash, blocks, work) && h in blocks
    ensures var path := Ancestors(hash, blocks, work, h);
            IsWalk(blocks, h, path) && h in work && work[h] == PathWork(blocks, path)
    decreases blocks[h].header.height
  {
    assert LinkedAt(hash, blocks, work, h);
    if blocks[h].header.height > 0 {
      var parent := blocks[h].header.parentHash;
      AncestorWalk(hash, blocks, work, parent);
      var rest := Ancestors(hash, blocks, work, parent);
      assert Ancestors(hash, blocks, work, h) == [h] + rest;
      WalkExtends(blocks, h, rest);
      assert ([h] + rest)[1..] == rest;
    }
  }

  lemma WalkExtends(blocks: map<Hash, Block>, h: Hash, rest: seq<Hash>)
    requires rest != [] && Follows(blocks, h, rest[0]) && IsWalk(blocks, rest[0], rest)
    ensures IsWalk(blocks, h, [h] + rest)
  {
    var path := [h] + rest;
    forall i | 0 <= i < |path| - 1
      ensures Follows(blocks, path[i], path[i + 1])
    {
      if i > 0 {
        assert Follows(blocks, rest[i - 1], rest[i]);
      }
    }
  }

  /** A walk never meets a block twice. */
  lemma AncestorsAreDistinct(hash: Header -> Hash, blocks: map<Hash, Block>, work: map<Hash, int>, h: Hash,
                             i: nat, j: nat)
    requires Tree(hash, blocks, work) && h in blocks
    requires i < j < |Ancestors(hash, blocks, work, h)|
    ensures Ancestors(hash, blocks, work, h)[i] != Ancestors(hash, blocks, work, h)[j]
  {
    AncestorWalk(hash, blocks, work, h);
  }

  /** Every height below an indexed one is indexed. */
  lemma {:induction false} IndexIsDownwardClosed(hash: Header -> Hash, s: Chain, high: uint64, low: uint64)
    requires WellFormed(hash, s) && high in s.heights && low <= high
    ensures low in s.heights
    decreases high
  {
    if low < high {
      var h := s.heights[high];
      assert IndexedAt(s.blocks, s.heights, high);
      assert LinkedAt(hash, s.blocks, s.work, h);
      var parent := s.blocks[h].header.parentHash;
      assert s.blocks[parent].header.height == high - 1;
      IndexIsDownwardClosed(hash, s, high - 1, low);
    }
  }

  /** A nonempty store's height index is defined exactly on 0..top and points to blocks of that height. */
  lemma HeightIndexIsExact(hash: Header -> Hash, s: Chain) returns (top: uint64)
    requires WellFormed(hash, s) && s.blocks != map[]
    ensures forall k: uint64 :: k in s.heights <==> k <= top
    ensures forall k: uint64 :: k <= top ==> s.heights[k] in s.blocks && s.blocks[s.heights[k]].header.height == k
    ensures forall h :: h in s.blocks ==> s.blocks[h].header.height <= top
  {
    var h :| h in s.blocks;
    assert s.blocks[h].header.height in s.heights;
    top := Maximum(s.heights.Keys);
    forall k: uint64 | k <= top
      ensures k in s.heights && s.heights[k] in s.blocks && s.blocks[s.heights[k]].header.height == k
    {
      IndexIsDownwardClosed(hash, s, top, k);
      assert IndexedAt(s.blocks, s.heights, k);
    }
  }

  /** GetBlockByHeight finds a stored block of that height, under its own hash, exactly up to the greatest height. */
  lemma BlocksByHeight(hash: Header -> Hash, s: Chain) returns (top: uint64)
    requires WellFormed(hash, s) && s.blocks != map[]
    ensures forall h :: h in s.blocks ==> s.blocks[h].header.height <= top
    ensures forall k: uint64 :: GetBlockByHeight(s, k).Ok? <==> k <= top
    ensures forall k: uint64 :: k <= top ==>
      var b := GetBlockByHeight(s, k).value;
      b.header.height == k && hash(b.header) in s.blocks && s.blocks[hash(b.header)] == b
  {
    top := HeightIndexIsExact(hash, s);
    forall k: uint64 | k <= top
      ensures var b := GetBlockByHeight(s, k).value;
        b.header.height == k && hash(b.header) in s.blocks && s.blocks[hash(b.header)] == b
    {
      assert LinkedAt(hash, s.blocks, s.work, s.heights[k]);
    }
  }

  lemma {:induction false} Maximum(ks: set<uint64>) returns (top: uint64)
    requires ks != {}
    ensures top in ks && forall k :: k in ks ==> k <= top
    decreases |ks|
  {
    var k :| k in ks;
    if ks == {k} {
      top := k;
    } else {
      var rest := ks - {k};
      var t := Maximum(rest);
      top := if t > k then t else k;
      assert ks == rest + {k};
    }
  }
}
