/** Blocks: construction, content hash and proof-of-work mining (src/models/block.rs). */
module Blocks {
  import opened Transactions

  /** A lowercase hex SHA-256 digest (FIPS 180-4): 64 characters. Its length is the only
      property of the digest the model relies on. */
  type Digest = s: string | |s| == 64
    witness "0000000000000000000000000000000000000000000000000000000000000000"

  /** The content hash over (timestamp, transactions, prev_hash, nonce). It is a parameter
      rather than a definition: SHA-256 and the encoding of its input are not modelled, so
      nothing about the hash beyond its length is assumed. */
  type Hasher = (int, seq<Txn>, string, nat) -> Digest

  /** `"0".repeat(n)`: the target prefix for difficulty `n`. */
  function Zeros(n: nat): (z: string)
    ensures |z| == n
    ensures forall i :: 0 <= i < n ==> z[i] == '0'
  {
    if n == 0 then "" else "0" + Zeros(n - 1)
  }

  /** Rust's `str::starts_with` for a string pattern. */
  predicate StartsWith(s: string, prefix: string) {
    |prefix| <= |s| && s[..|prefix|] == prefix
  }

  /** `hash` meets the target of `difficulty`: it starts with `difficulty` zeros. */
  predicate MeetsDifficulty(hash: string, difficulty: nat) {
    StartsWith(hash, Zeros(difficulty))
  }

  /** `hash` has at least `d` characters and the first `d` of them are '0'. */
  predicate HasLeadingZeros(hash: string, d: nat) {
    d <= |hash| && forall i :: 0 <= i < d ==> hash[i] == '0'
  }

  /** Meeting difficulty `d` means exactly that the first `d` characters are '0'. */
  lemma MeetsDifficultyIff(hash: string, d: nat)
    ensures MeetsDifficulty(hash, d) <==> HasLeadingZeros(hash, d)
  {
    if HasLeadingZeros(hash, d) {
      assert hash[..d] == Zeros(d);
    }
  }

  /** A hash that meets a difficulty meets every lower one. */
  lemma MeetsLowerDifficulty(hash: string, d: nat, e: nat)
    requires d <= e && MeetsDifficulty(hash, e)
    ensures MeetsDifficulty(hash, d)
  {
    MeetsDifficultyIff(hash, e);
    MeetsDifficultyIff(hash, d);
  }

  /** Some nonce from `start` on gives a hash that meets `difficulty`: the condition
      under which the mining search terminates. */
  ghost predicate Mineable(h: Hasher, timestamp: int, txs: seq<Txn>, prev: string, start: nat, difficulty: nat) {
    exists n: nat :: start <= n && MeetsDifficulty(h(timestamp, txs, prev, n), difficulty)
  }

  /** `n` is the least nonce from `start` on whose hash meets `difficulty`. */
  ghost predicate IsLeastNonce(h: Hasher, timestamp: int, txs: seq<Txn>, prev: string, start: nat, difficulty: nat, n: nat) {
    && start <= n
    && MeetsDifficulty(h(timestamp, txs, prev, n), difficulty)
    && forall k: nat :: start <= k < n ==> !MeetsDifficulty(h(timestamp, txs, prev, k), difficulty)
  }

  /** Mining is deterministic: from the same block content and starting nonce, the
      search can stop at one nonce only. */
  lemma LeastNonceUnique(h: Hasher, timestamp: int, txs: seq<Txn>, prev: string, start: nat, difficulty: nat, n1: nat, n2: nat)
    requires IsLeastNonce(h, timestamp, txs, prev, start, difficulty, n1)
    requires IsLeastNonce(h, timestamp, txs, prev, start, difficulty, n2)
    ensures n1 == n2
  {
  }

  /** Raising the difficulty never makes the search stop earlier. */
  lemma LeastNonceGrowsWithDifficulty(h: Hasher, timestamp: int, txs: seq<Txn>, prev: string, start: nat, d: nat, e: nat, nd: nat, ne: nat)
    requires d <= e
    requires IsLeastNonce(h, timestamp, txs, prev, start, d, nd)
    requires IsLeastNonce(h, timestamp, txs, prev, start, e, ne)
    ensures nd <= ne
  {
    if ne < nd {
      MeetsLowerDifficulty(h(timestamp, txs, prev, ne), d, e);
      assert false;
    }
  }

  /** At difficulty 0 the prefix is empty, so every search can stop, and stops at once. */
  lemma ZeroDifficultyStopsAtOnce(h: Hasher, timestamp: int, txs: seq<Txn>, prev: string, start: nat, n: nat)
    ensures Mineable(h, timestamp, txs, prev, start, 0)
    ensures IsLeastNonce(h, timestamp, txs, prev, start, 0, n) <==> n == start
  {
    MeetsDifficultyIff(h(timestamp, txs, prev, start), 0);
  }

  /** No 64-character digest meets a difficulty above 64, so mining at such a difficulty
      never stops. */
  lemma NothingMineableAbove64(h: Hasher, timestamp: int, txs: seq<Txn>, prev: string, start: nat, difficulty: nat)
    requires difficulty > 64
    ensures !Mineable(h, timestamp, txs, prev, start, difficulty)
  {
    forall n: nat ensures !MeetsDifficulty(h(timestamp, txs, prev, n), difficulty) {
      MeetsDifficultyIff(h(timestamp, txs, prev, n), difficulty);
    }
  }

  /** One ledger entry. Only `current_hash` and `nonce` change after creation, and only
      while the block mines itself. */
  class Block {
    var transaction: seq<Txn>
    var prev_hash: string
    var current_hash: string
    var timestamp: int
    var nonce: nat

    /** `Block::create`: `now` stands for the wall clock read by the source. */
    constructor Create(new_transaction: seq<Txn>, prev_hash: string, now: int, h: Hasher)
      ensures transaction == new_transaction && this.prev_hash == prev_hash
      ensures timestamp == now && nonce == 0
      ensures current_hash == CalculateHash(h)
    {
      timestamp := now;
      transaction := new_transaction;
      this.prev_hash := prev_hash;
      nonce := 0;
      current_hash := "";
      new;
      current_hash := CalculateHash(h);
    }

    /** `Block::calculate_hash`: the digest of the four content fields; `current_hash`
        is not part of its input. */
    function CalculateHash(h: Hasher): Digest
      reads this
    {
      h(timestamp, transaction, prev_hash, nonce)
    }

    /** `Block::mine_block`: linear search upwards from the current nonce for the least
        nonce whose hash meets `difficulty`, storing that hash and nonce. */
    method MineBlock(difficulty: nat, h: Hasher)
      requires Mineable(h, timestamp, transaction, prev_hash, nonce, difficulty)
      modifies this`current_hash, this`nonce
      ensures transaction == old(transaction) && prev_hash == old(prev_hash) && timestamp == old(timestamp)
      ensures old(nonce) <= nonce
      ensures current_hash == CalculateHash(h)
      ensures MeetsDifficulty(current_hash, difficulty)
      ensures IsLeastNonce(h, timestamp, transaction, prev_hash, old(nonce), difficulty, nonce)
    {
      ghost var w: nat :| nonce <= w && MeetsDifficulty(h(timestamp, transaction, prev_hash, w), difficulty);
      var prefix := Zeros(difficulty);
      while true
        invariant old(nonce) <= nonce <= w
        invariant forall k: nat :: old(nonce) <= k < nonce ==> !MeetsDifficulty(h(timestamp, transaction, prev_hash, k), difficulty)
        decreases w - nonce
      {
        current_hash := CalculateHash(h);
        if StartsWith(current_hash, prefix) {
          break;
        }
        nonce := nonce + 1;
      }
    }
  }

  /** Equal content fields give equal hashes, whatever the stored hashes are. */
  lemma HashDependsOnContentOnly(a: Block, b: Block, h: Hasher)
    requires a.timestamp == b.timestamp && a.transaction == b.transaction
    requires a.prev_hash == b.prev_hash && a.nonce == b.nonce
    ensures a.CalculateHash(h) == b.CalculateHash(h)
  {
  }
}
