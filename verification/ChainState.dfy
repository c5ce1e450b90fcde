/** What a chain store holds, and its operations as functions on values (pkg/chain/memory.go). */
module ChainState {
  import opened Bytes
  import opened Types

  /** The zero hash in `tip` or `genesis` means "none". */
  datatype Chain = Chain(
    genesis: Hash,
    tip: Hash,
    blocks: map<Hash, Block>,
    heights: map<uint64, Hash>,
    work: map<Hash, int>)

  const EMPTY_CHAIN: Chain := Chain(ZERO_HASH, ZERO_HASH, map[], map[], map[])

  /** The zero value read from a map that lacks the key. */
  const ZERO_BLOCK: Block :=
    Block(Header(0, 0, 0, ZERO_HASH, 0, ZERO_TARGET, 0, ZERO_HASH, 0, ZERO_HASH, ZERO_HASH), [])

  datatype StoreError = BlockNotFound

  function BlockAt(s: Chain, h: Hash): Block {
    if h in s.blocks then s.blocks[h] else ZERO_BLOCK
  }

  function StoreBlock(hash: Header -> Hash, s: Chain, block: Block, totalWork: int): Chain {
    var h := hash(block.header);
    s.(blocks := s.blocks[h := block],
       heights := s.heights[block.header.height := h],
       work := s.work[h := totalWork],
       genesis := if block.header.height == 0 && s.genesis == ZERO_HASH then h else s.genesis,
       tip := if s.tip == ZERO_HASH then h else s.tip)
  }

  function SetCurrentTip(s: Chain, h: Hash): Result<Chain, StoreError> {
    if h in s.blocks then Ok(s.(tip := h)) else Err(BlockNotFound)
  }

  function GetHeader(s: Chain, h: Hash): Result<Header, StoreError> {
    if h in s.blocks then Ok(s.blocks[h].header) else Err(BlockNotFound)
  }

  function GetBlockByHeight(s: Chain, height: uint64): Result<Block, StoreError> {
    if height in s.heights then Ok(BlockAt(s, s.heights[height])) else Err(BlockNotFound)
  }

  function TotalWork(s: Chain, h: Hash): Result<int, StoreError> {
    if h in s.work then Ok(s.work[h]) else Err(BlockNotFound)
  }

  function CurrentTip(s: Chain): Result<(Block, int), StoreError> {
    if s.tip == ZERO_HASH then Err(BlockNotFound)
    else Ok((BlockAt(s, s.tip), if s.tip in s.work then s.work[s.tip] else 0))
  }
}

/** The in-memory store, updated in place. */
module MemStore {
  import opened Bytes
  import opened Types
  import opened ChainState

  class MemoryStore {
    const blockHash: Header -> Hash
    var genesisHash: Hash
    var currentTip: Hash
    var blocks: map<Hash, Block>
    var heights: map<uint64, Hash>
    var totalWork: map<Hash, int>

    ghost function Contents(): Chain
      reads this
    {
      Chain(genesisHash, currentTip, blocks, heights, totalWork)
    }

    constructor (hash: Header -> Hash)
      ensures Contents() == EMPTY_CHAIN && blockHash == hash
    {
      blockHash := hash;
      genesisHash, currentTip := ZERO_HASH, ZERO_HASH;
      blocks, heights, totalWork := map[], map[], map[];
    }

    method StoreBlock(block: Block, work: int)
      modifies this
      ensures Contents() == ChainState.StoreBlock(blockHash, old(Contents()), block, work)
    {
      var hash := blockHash(block.header);
      blocks := blocks[hash := block];
      heights := heights[block.header.height := hash];
      totalWork := totalWork[hash := work];
      if block.header.height == 0 && genesisHash == ZERO_HASH {
        genesisHash := hash;
      }
      if currentTip == ZERO_HASH {
        currentTip := hash;
      }
    }

    method SetCurrentTip(hash: Hash) returns (ok: bool)
      modifies this`currentTip
      ensures ok <==> hash in blocks
      ensures Contents() == if ok then old(Contents()).(tip := hash) else old(Contents())
    {
      ok := hash in blocks;
      if ok {
        currentTip := hash;
      }
    }

    method GetHeader(hash: Hash) returns (r: Result<Header, StoreError>)
      ensures r == ChainState.GetHeader(Contents(), hash)
    {
      if hash !in blocks {
        return Err(BlockNotFound);
      }
      r := Ok(blocks[hash].header);
    }

    method GetBlockByHeight(height: uint64) returns (r: Result<Block, StoreError>)
      ensures r == ChainState.GetBlockByHeight(Contents(), height)
    {
      if height !in heights {
        return Err(BlockNotFound);
      }
      r := Ok(if heights[height] in blocks then blocks[heights[height]] else ZERO_BLOCK);
    }

    method CurrentTip() returns (r: Result<(Block, int), StoreError>)
      ensures r == ChainState.CurrentTip(Contents())
    {
      if currentTip == ZERO_HASH {
        return Err(BlockNotFound);
      }
      var block := if currentTip in blocks then blocks[currentTip] else ZERO_BLOCK;
      var work := 0;
      if currentTip in totalWork {
        work := totalWork[currentTip];
      }
      r := Ok((block, work));
    }

    method TotalWork(hash: Hash) returns (r: Result<int, StoreError>)
      ensures r == ChainState.TotalWork(Contents(), hash)
    {
      if hash !in totalWork {
        return Err(BlockNotFound);
      }
      r := Ok(totalWork[hash]);
    }

    method HasBlock(hash: Hash) returns (r: bool)
      ensures r <==> hash in Contents().blocks
    {
      r := hash in blocks;
    }
  }
}
