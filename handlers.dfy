/** The decision logic of the request handlers (src/handlers/blockchain_handlers.rs):
    the all-or-nothing batch check and append, the difficulty range guard, and the two
    read-only lookups. Responses are datatypes; locking, JSON shaping and the file save
    are not modelled. */
module Handlers {
  import opened Wrappers
  import opened Transactions
  import opened Blocks
  import opened Ledger
  import Configuration

  /** Outcome of the add-block request. `HeightUnderflow` is the case where the chain
      was empty, so the append did nothing and the height `len - 1` has no `usize`
      value. */
  datatype AddBlockResponse =
    | BlockAdded(block_height: nat, current_difficulty: nat)
    | InvalidTransaction(index: nat)
    | HeightUnderflow

  /** Outcome of the difficulty-update request. */
  datatype DifficultyResponse =
    | DifficultyUpdated(old_difficulty: nat, new_difficulty: nat)
    | DifficultyOutOfRange

  /** Outcome of the latest-block request. */
  datatype LatestBlockResponse =
    | Latest(block: Block, block_number: nat, current_difficulty: nat)
    | NoBlocks

  /** Outcome of the difficulty query. */
  datatype DifficultyInfo = DifficultyInfo(current_difficulty: nat, total_blocks: nat)

  /** Every transaction of the batch is valid. */
  predicate AllValid(txs: seq<Txn>) {
    forall i :: 0 <= i < |txs| ==> IsValid(txs[i])
  }

  /** The validation loop of the add-block handler: the index of the first invalid
      transaction, or none when the whole batch is valid. */
  method FirstInvalid(txs: seq<Txn>) returns (r: Option<nat>)
    ensures r.None? <==> AllValid(txs)
    ensures r.Some? ==> r.value < |txs| && !IsValid(txs[r.value])
    ensures r.Some? ==> forall j :: 0 <= j < r.value ==> IsValid(txs[j])
  {
    for i := 0 to |txs|
      invariant forall j :: 0 <= j < i ==> IsValid(txs[j])
    {
      if !IsValid(txs[i]) {
        return Some(i);
      }
    }
    return None;
  }

  /** The add-block handler: rejects the whole batch, untouched chain, at its first
      invalid transaction; otherwise appends a mined block and reports its height. */
  method AddBlock(chain: Blockchain, txs: seq<Txn>, now: int) returns (r: AddBlockResponse)
    requires AllValid(txs) && |chain.blocks| > 0 ==>
      Mineable(chain.hash, now, txs, chain.Tip().current_hash, 0, chain.difficulty)
    modifies chain
    ensures r.InvalidTransaction? <==> !AllValid(txs)
    ensures r.InvalidTransaction? ==>
      && r.index < |txs| && !IsValid(txs[r.index])
      && (forall j :: 0 <= j < r.index ==> IsValid(txs[j]))
      && unchanged(chain)
    ensures r.HeightUnderflow? <==> AllValid(txs) && old(|chain.blocks|) == 0
    ensures r.HeightUnderflow? ==> unchanged(chain)
    ensures r.BlockAdded? ==>
      && old(|chain.blocks|) > 0
      && r.block_height == old(|chain.blocks|)
      && |chain.blocks| == r.block_height + 1
      && chain.blocks[..r.block_height] == old(chain.blocks)
      && r.current_difficulty == chain.difficulty == old(chain.difficulty)
      && chain.Tip().transaction == txs
      && chain.Tip().prev_hash == old(chain.Tip().current_hash)
      && chain.Tip().timestamp == now
      && chain.Tip().current_hash == chain.Tip().CalculateHash(chain.hash)
      && IsLeastNonce(chain.hash, now, txs, chain.Tip().prev_hash, 0, chain.difficulty, chain.Tip().nonce)
      && MeetsDifficulty(chain.Tip().current_hash, chain.difficulty)
      && LatestBlock(chain) == Latest(chain.Tip(), r.block_height, r.current_difficulty)
      && GetDifficulty(chain).total_blocks == r.block_height + 1
    ensures old(chain.IsValidChain()) ==> chain.IsValidChain()
  {
    var bad := FirstInvalid(txs);
    if bad.Some? {
      return InvalidTransaction(bad.value);
    }
    chain.AddBlock(txs, now);
    if |chain.blocks| == 0 {
      return HeightUnderflow;
    }
    return BlockAdded(|chain.blocks| - 1, chain.difficulty);
  }

  /** The range guard of the difficulty-update handler: 1 to 10 inclusive. */
  predicate DifficultyInRange(difficulty: nat) {
    !(difficulty == 0 || difficulty > 10)
  }

  /** The handler accepts exactly the difficulties that the configuration loader keeps
      as they are. */
  lemma GuardsAgree(difficulty: nat)
    ensures DifficultyInRange(difficulty) <==> Configuration.NormalizeDifficulty(difficulty) == difficulty
  {
  }

  /** The difficulty-update handler: rejects out-of-range values without touching the
      chain; otherwise replaces the difficulty and reports the old and new values. */
  method UpdateDifficulty(chain: Blockchain, difficulty: nat) returns (r: DifficultyResponse)
    modifies chain
    ensures r.DifficultyOutOfRange? <==> !DifficultyInRange(difficulty)
    ensures r.DifficultyOutOfRange? ==> unchanged(chain)
    ensures r.DifficultyUpdated? ==>
      && r.old_difficulty == old(chain.difficulty)
      && r.new_difficulty == difficulty
      && chain.difficulty == difficulty
      && chain.blocks == old(chain.blocks)
    ensures r.DifficultyUpdated? && difficulty <= old(chain.difficulty) && old(chain.IsValidChain()) ==>
      chain.IsValidChain()
  {
    if difficulty == 0 || difficulty > 10 {
      return DifficultyOutOfRange;
    }
    var old_difficulty := chain.difficulty;
    ghost var wasValid := chain.IsValidChain();
    chain.UpdateDifficulty(difficulty);
    if wasValid && difficulty <= old_difficulty {
      LowerDifficultyKeepsValid(chain, old_difficulty, difficulty);
    }
    return DifficultyUpdated(old_difficulty, difficulty);
  }

  /** The latest-block lookup: the last block and its index, or an error on an empty
      chain. */
  function LatestBlock(chain: Blockchain): (r: LatestBlockResponse)
    reads chain
    ensures r.NoBlocks? <==> |chain.blocks| == 0
    ensures r.Latest? ==>
      && r.block_number + 1 == |chain.blocks|
      && r.block == chain.blocks[r.block_number]
      && r.current_difficulty == chain.difficulty
  {
    if |chain.blocks| == 0 then NoBlocks
    else Latest(chain.blocks[|chain.blocks| - 1], |chain.blocks| - 1, chain.difficulty)
  }

  /** The difficulty query: the current difficulty and the number of blocks. */
  function GetDifficulty(chain: Blockchain): (r: DifficultyInfo)
    reads chain
    ensures r.current_difficulty == chain.difficulty && r.total_blocks == |chain.blocks|
  {
    DifficultyInfo(chain.difficulty, |chain.blocks|)
  }

  /** A client of the handlers: a negative transfer is rejected at index 0 and the
      chain does not grow. */
  method RejectScenario(chain: Blockchain, now: int)
    modifies chain
  {
    var n := |chain.blocks|;
    var bad := New(-5.0, "a", "b");
    IsValidMeans(bad);
    assert [bad][0] == bad && !AllValid([bad]);
    var r := AddBlock(chain, [bad], now);
    assert r == InvalidTransaction(0) && |chain.blocks| == n;
  }

  /** A client of the handlers: on a genesis-only chain at difficulty 2, a valid
      transfer becomes block 1, linked to the genesis block, with a hash starting "00",
      and the chain stays valid. */
  method AppendScenario(hash: Hasher, t0: int, t1: int, txn: Txn)
    requires IsValid(txn)
    requires forall prev: string :: Mineable(hash, t1, [txn], prev, 0, 2)
  {
    var chain := new Blockchain.New(2, hash, t0);
    var r := AddBlock(chain, [txn], t1);
    assert r.BlockAdded? && r.block_height == 1;
    assert |chain.blocks| == 2;
    assert chain.blocks[1].prev_hash == chain.blocks[0].current_hash;
    MeetsDifficultyIff(chain.blocks[1].current_hash, 2);
    assert chain.blocks[1].current_hash[..2] == "00";
    var valid := chain.Validate();
    assert valid;
  }
}
