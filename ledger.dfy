/** The chain: genesis creation, block append, full-chain validation and difficulty
    update (src/models/blockchain.rs). */
module Ledger {
  import opened Transactions
  import opened Blocks

  /** The ledger: an ordered sequence of blocks and the difficulty every non-genesis
      block is checked against. `hash` is the one content hash the process uses. */
  class Blockchain {
    var blocks: seq<Block>
    var difficulty: nat
    const hash: Hasher

    /** `Blockchain::new`: a single genesis block with no transactions, linked to the
        sentinel "0"; `now` stands for the wall clock read while creating it. */
    constructor New(difficulty: nat, hash: Hasher, now: int)
      ensures this.difficulty == difficulty && this.hash == hash
      ensures |blocks| == 1 && fresh(blocks[0])
      ensures blocks[0].transaction == [] && blocks[0].prev_hash == "0"
      ensures blocks[0].timestamp == now && blocks[0].nonce == 0
      ensures blocks[0].current_hash == blocks[0].CalculateHash(hash)
      ensures IsValidChain()
    {
      var genesis := new Block.Create([], "0", now, hash);
      genesis.current_hash := genesis.CalculateHash(hash);
      this.difficulty := difficulty;
      this.hash := hash;
      blocks := [genesis];
    }

    /** The last block. */
    function Tip(): Block
      reads this
      requires |blocks| > 0
    {
      blocks[|blocks| - 1]
    }

    /** The three checks `validate` makes on block `i` against difficulty `d`: its hash
        recomputes, it links to block `i - 1`, and its hash meets `d`. */
    predicate BlockOk(i: nat, d: nat)
      reads this, blocks
      requires 1 <= i < |blocks|
    {
      && blocks[i].current_hash == blocks[i].CalculateHash(hash)
      && blocks[i].prev_hash == blocks[i - 1].current_hash
      && MeetsDifficulty(blocks[i].current_hash, d)
    }

    /** The chain is non-empty and every block after the genesis block passes the
        checks at difficulty `d`; the genesis block itself is never checked. */
    predicate ValidAt(d: nat)
      reads this, blocks
    {
      |blocks| > 0 && forall i :: 1 <= i < |blocks| ==> BlockOk(i, d)
    }

    /** What `validate` decides: validity at the current difficulty. */
    predicate IsValidChain()
      reads this, blocks
    {
      ValidAt(difficulty)
    }

    /** `Blockchain::validate`: scans the blocks in order and stops at the first one that
        fails a check. */
    method Validate() returns (valid: bool)
      ensures valid == IsValidChain()
    {
      if |blocks| == 0 {
        return false;
      }
      for i := 0 to |blocks|
        invariant forall k :: 1 <= k < i ==> BlockOk(k, difficulty)
      {
        if i == 0 {
          continue;
        }
        var block := blocks[i];
        var previous_block := blocks[i - 1];
        if block.current_hash != block.CalculateHash(hash) {
          assert !BlockOk(i, difficulty);
          return false;
        }
        if block.prev_hash != previous_block.current_hash {
          assert !BlockOk(i, difficulty);
          return false;
        }
        var prefix := Zeros(difficulty);
        if !StartsWith(block.current_hash, prefix) {
          assert !BlockOk(i, difficulty);
          return false;
        }
      }
      return true;
    }

    /** `Blockchain::add_block`: on an empty chain nothing happens; otherwise a block
        holding `transactions` is created at time `now`, linked to the tip, mined at the
        current difficulty and appended. The search terminates only if some nonce meets
        the target, which the precondition supplies. The file save that follows is not
        modelled. */
    method AddBlock(transactions: seq<Txn>, now: int)
      requires |blocks| > 0 ==> Mineable(hash, now, transactions, Tip().current_hash, 0, difficulty)
      modifies this
      ensures difficulty == old(difficulty)
      ensures old(|blocks|) == 0 ==> unchanged(this)
      ensures old(|blocks|) > 0 ==>
        && |blocks| == old(|blocks|) + 1
        && blocks[..old(|blocks|)] == old(blocks)
        && fresh(Tip())
        && Tip().transaction == transactions
        && Tip().prev_hash == old(Tip().current_hash)
        && Tip().timestamp == now
        && Tip().current_hash == Tip().CalculateHash(hash)
        && IsLeastNonce(hash, now, transactions, Tip().prev_hash, 0, difficulty, Tip().nonce)
      ensures forall i :: 0 <= i < old(|blocks|) ==> unchanged(old(blocks)[i])
      ensures old(IsValidChain()) ==> IsValidChain()
    {
      if |blocks| == 0 {
        return;
      }
      var previous_hash := Tip().current_hash;
      var new_block := new Block.Create(transactions, previous_hash, now, hash);
      new_block.MineBlock(difficulty, hash);
      blocks := blocks + [new_block];
      assert BlockOk(|blocks| - 1, difficulty);
      if old(IsValidChain()) {
        forall i | 1 <= i < |blocks| - 1 ensures BlockOk(i, difficulty) {
          assert old(BlockOk(i, difficulty));
        }
      }
    }

    /** `Blockchain::update_difficulty`: replaces the difficulty and nothing else. */
    method UpdateDifficulty(new_difficulty: nat)
      modifies this`difficulty
      ensures difficulty == new_difficulty
      ensures blocks == old(blocks)
    {
      difficulty := new_difficulty;
    }
  }

  /** A chain holding only its genesis block is valid at every difficulty, since the
      genesis block is never checked; an empty chain is valid at none. */
  lemma GenesisOnlyChainValid(c: Blockchain, d: nat)
    ensures |c.blocks| == 1 ==> c.ValidAt(d)
    ensures |c.blocks| == 0 ==> !c.ValidAt(d)
  {
  }

  /** Lowering the difficulty never turns a valid chain invalid. */
  lemma LowerDifficultyKeepsValid(c: Blockchain, d: nat, e: nat)
    requires e <= d && c.ValidAt(d)
    ensures c.ValidAt(e)
  {
    forall i | 1 <= i < |c.blocks| ensures c.BlockOk(i, e) {
      assert c.BlockOk(i, d);
      MeetsLowerDifficulty(c.blocks[i].current_hash, e, d);
    }
  }

  /** Validity spelled out character by character: every non-genesis block recomputes,
      links to its predecessor, and its hash begins with `d` '0' characters. */
  lemma ValidAtMeans(c: Blockchain, d: nat)
    ensures c.ValidAt(d) <==> |c.blocks| > 0 && forall i :: 1 <= i < |c.blocks| ==> ChecksSpelledOut(c, i, d)
  {
    forall i | 1 <= i < |c.blocks| ensures c.BlockOk(i, d) <==> ChecksSpelledOut(c, i, d) {
      MeetsDifficultyIff(c.blocks[i].current_hash, d);
    }
  }

  /** The three checks on block `i` with the difficulty prefix spelled out. */
  ghost predicate ChecksSpelledOut(c: Blockchain, i: nat, d: nat)
    reads c, c.blocks
    requires 1 <= i < |c.blocks|
  {
    && c.blocks[i].current_hash == c.blocks[i].CalculateHash(c.hash)
    && c.blocks[i].prev_hash == c.blocks[i - 1].current_hash
    && HasLeadingZeros(c.blocks[i].current_hash, d)
  }
}
