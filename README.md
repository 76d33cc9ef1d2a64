# DemoBlockChain ledger engine, modelled in Dafny

This project models the ledger engine of DemoBlockChain, a small proof-of-work
blockchain server. A ledger is a chain of blocks. Each block holds a batch of
transfer transactions, the hash of its predecessor, a timestamp, a nonce and its own
content hash. A block is admitted only after a linear nonce search makes its hex
digest start with `difficulty` zero characters.

The model covers:

- `Transactions` (`transactions.dfy`): the `Txn` record and its validity check.
  Rust's `str::trim` is written out, with `char::is_whitespace` as the Unicode
  White_Space set.
- `Blocks` (`blocks.dfy`): the `Block` class, its creation, its content hash and the
  in-place mining loop. The same file proves facts about the least nonce that meets a
  target.
- `Ledger` (`ledger.dfy`): the `Blockchain` class, holding a `seq<Block>`, the
  difficulty and the hash function. It has the genesis constructor, append,
  full-chain validation (a predicate plus the loop method that decides it) and the
  difficulty update.
- `Handlers` (`handlers.dfy`): the decision logic of the HTTP handlers. This is the
  all-or-nothing batch check, the append response, the 1..=10 difficulty guard, and
  the latest-block and difficulty lookups. Responses are datatypes.
  `RejectScenario` and `AppendScenario` are verified clients of the handler
  contracts: a negative transfer rejected at index 0, and a genesis-only chain
  extended by one block.
- `Configuration` (`configuration.dfy`): the defaults and difficulty normalisation of
  `Config::from_env`, and `Config::address`.
- `Wrappers` (`wrappers.dfy`): an `Option` type.

How the awkward parts are modelled:

- **Hash.** SHA-256 over the Debug encoding of (timestamp, transactions, prev_hash,
  nonce) becomes a `Hasher` value. It is a function from those four fields to a
  `Digest`, a string of exactly 64 characters. Nothing else about it is assumed. The
  chain carries the one hasher it uses as a constant field.
- **Mining termination.** The source's loop stops only when some nonce works.
  `MineBlock` therefore requires `Mineable`: some nonce at or above the current one
  meets the target. A ghost witness bounds the loop. The model covers terminating
  runs.
- **Clock.** `Utc::now()` becomes a `now: int` parameter.
- **Amount.** The `f64` amount is a `real`, used only in `amount > 0`.
- **Integer parsing.** `str::parse::<usize>` is a parameter
  `parse: string -> Option<nat>`.
- **Environment.** Each environment variable arrives as an `Option<string>`.

Two details of the source that the model keeps:

- `mine_block` hashes at the current nonce before it increments, so it can stop at
  its starting nonce (src/models/block.rs:41-46).
- The 1..=10 range for a difficulty update exists only in the handler
  (src/handlers/blockchain_handlers.rs:88). `Blockchain::update_difficulty` and
  `Blockchain::new` accept any value (src/models/blockchain.rs:13, 95-96).

## Model

| member | source | states |
|---|---|---|
| `Transactions.New` | src/models/transaction.rs:11-13 | the transaction holds the amount and both addresses exactly as given |
| `Transactions.TrimStartSpec` | src/models/transaction.rs:16 | `trim_start` drops exactly the longest whitespace prefix: the result is a suffix of the input, everything dropped is whitespace, and the result does not start with whitespace |
| `Transactions.TrimEndSpec` | src/models/transaction.rs:16 | `trim_end` drops exactly the longest whitespace suffix: the result is a prefix of the input, everything dropped is whitespace, and the result does not end with whitespace |
| `Transactions.TrimEmptyIffBlank` | src/models/transaction.rs:16 | an address trims to empty exactly when every character of it is whitespace |
| `Transactions.IsValidMeans` | src/models/transaction.rs:15-17 | `IsValid` (the model of `is_valid`) holds iff amount > 0 and each address has a non-whitespace character; a zero or negative amount, or a blank `from` or `to`, makes it invalid |
| `Blocks.Zeros` | src/models/block.rs:40 | the difficulty prefix has length `n` and consists of '0' characters only |
| `Blocks.MeetsDifficultyIff` | src/models/block.rs:40-43 | a hash meets difficulty d iff it has at least d characters and the first d are '0' |
| `Blocks.MeetsLowerDifficulty` | src/models/block.rs:40-43 | a hash that meets difficulty e meets every d <= e |
| `Blocks.LeastNonceUnique` | src/models/block.rs:41-47 | from the same content and starting nonce, at most one nonce can be the least that meets the target, so mining is deterministic |
| `Blocks.LeastNonceGrowsWithDifficulty` | src/models/block.rs:40-47 | from the same block, the nonce mining stops at for difficulty e is at least the one for any d <= e |
| `Blocks.ZeroDifficultyStopsAtOnce` | src/models/block.rs:40-43 | at difficulty 0 a nonce always exists, and the least one is the starting nonce |
| `Blocks.NothingMineableAbove64` | src/models/block.rs:36-43 | no 64-character digest meets a difficulty above 64, so mining at such a difficulty never stops |
| `Blocks.Block.Create` | src/models/block.rs:17-28 | nonce 0, transactions and prev_hash verbatim, timestamp is the clock value, and the stored hash equals `CalculateHash` |
| `Blocks.HashDependsOnContentOnly` | src/models/block.rs:30-37 | `Block.CalculateHash` (the model of `calculate_hash`) gives equal hashes for two blocks with equal timestamp, transactions, prev_hash and nonce, whatever their stored hashes |
| `Blocks.Block.MineBlock` | src/models/block.rs:39-53 | only `current_hash` and `nonce` change; the nonce does not decrease; the stored hash recomputes and meets the difficulty; the final nonce is the least one from the start that does, so every nonce tried before it failed |
| `Ledger.Blockchain.New` | src/models/blockchain.rs:13-23 | one fresh genesis block, no transactions, prev_hash "0", nonce 0, hash recomputes, difficulty as given, and the new chain validates |
| `Ledger.Blockchain.Validate` | src/models/blockchain.rs:47-80 | returns exactly `IsValidChain()`: non-empty, and every block from index 1 on recomputes, links to its predecessor's hash and meets the current difficulty |
| `Ledger.Blockchain.AddBlock` | src/models/blockchain.rs:25-45 | on an empty chain nothing changes; otherwise one fresh block is appended with the given transactions and clock, linked to the old tip's hash, with a recomputing hash and the least nonce meeting the difficulty; old blocks and difficulty are untouched; a valid chain stays valid |
| `Ledger.Blockchain.UpdateDifficulty` | src/models/blockchain.rs:95-98 | sets the difficulty and leaves the blocks as they were |
| `Ledger.GenesisOnlyChainValid` | src/models/blockchain.rs:47-56 | a chain of only its genesis block is valid at every difficulty, since index 0 is never checked; an empty chain is never valid |
| `Ledger.LowerDifficultyKeepsValid` | src/models/blockchain.rs:72-77 | a chain valid at difficulty d is valid at every e <= d |
| `Ledger.ValidAtMeans` | src/models/blockchain.rs:52-79 | validity in plain terms: every block after the genesis block recomputes, links to its predecessor, and its hash begins with d '0' characters |
| `Handlers.FirstInvalid` | src/handlers/blockchain_handlers.rs:23-32 | no index iff the whole batch is valid; otherwise the smallest index of an invalid transaction |
| `Handlers.AddBlock` | src/handlers/blockchain_handlers.rs:17-42 | any invalid transaction rejects the batch at its first invalid index and leaves the chain untouched; otherwise one block is appended with the given transactions and clock, linked to the old tip, with a recomputing hash and the least nonce meeting the difficulty; the reported height is the old length, matching the latest-block and difficulty lookups; validity is preserved |
| `Handlers.GuardsAgree` | src/handlers/blockchain_handlers.rs:88-92 | `DifficultyInRange` (the model of the handler's guard at line 88) accepts exactly the difficulties the configuration loader keeps unchanged, i.e. 1..=10 |
| `Handlers.UpdateDifficulty` | src/handlers/blockchain_handlers.rs:84-108 | 0 and values above 10 are rejected with the chain untouched; otherwise the previous difficulty is reported as old, the chain's difficulty becomes the request, and the blocks stay; lowering keeps a valid chain valid |
| `Handlers.LatestBlock` | src/handlers/blockchain_handlers.rs:62-74 | an error exactly on an empty chain; otherwise the last block, numbered length minus 1, with the current difficulty |
| `Handlers.GetDifficulty` | src/handlers/blockchain_handlers.rs:76-82 | the current difficulty and the block count, read without change |
| `Configuration.NormalizeDifficulty` | src/utils/config.rs:21-28 | the result is always in 1..=10; values in range are kept; 0 and values above 10 become 2 |
| `Configuration.FromEnv` | src/utils/config.rs:11-39 | difficulty always in 1..=10; an unparseable DIFFICULTY gives 2, and so does a missing one, since "2" parses to 2; a parsed value is kept when in range and otherwise replaced by 2; missing PORT, HOST and BLOCKCHAIN_FILE default to "8080", "0.0.0.0" and "blockchain.json" |
| `Configuration.Address` | src/utils/config.rs:41-43 | the address is the host, a ':' and the port, and both parts can be read back from it |

## Left out

- SHA-256 and the Debug encoding of its input are not modelled. The hash is an arbitrary function returning 64 characters. Tamper detection and collision resistance are therefore assumptions, not theorems.
- `Blocks.Block.MineBlock`: models only terminating searches. Its precondition requires a nonce that meets the target. In the source the loop spins forever when there is none, for example at a difficulty above 64.
- `Ledger.Blockchain.AddBlock`: requires, for the same reason, that the new block can be mined. It also leaves out the auto-save to "blockchain.json" (src/models/blockchain.rs:41-44). That save is file I/O whose failure is only logged.
- `Handlers.AddBlock`: the source runs the validation loop inline. The model moves it into `FirstInvalid`. On an empty chain the source computes `len() - 1` on `usize`, which panics in debug builds and wraps in release builds. The model reports this as the distinct outcome `HeightUnderflow`. It inherits the `Mineable` precondition of `Ledger.Blockchain.AddBlock`, so it models only batches whose block can be mined.
- `Handlers.UpdateDifficulty`: the save to "blockchain.json" after the update (src/handlers/blockchain_handlers.rs:98-101) is not modelled; its failure is only logged.
- Nonces are `nat`. The `u64` overflow of `nonce += 1` is not modelled.
- The `f64` amount is a `real`. NaN, infinities and rounding are not represented.
- `save_to_file` and `load_from_file` (src/models/blockchain.rs:82-93) are not modelled. They are file I/O plus serde_json.
- The mutex in src/state.rs and the `lock().unwrap()` calls are not modelled. The chain is a single owned object.
- The HTTP layer is not modelled. That covers actix routing, CORS and logger middleware, server start-up and the load-or-fresh sequence in src/main.rs. It also covers `get_chain`, `validate_chain`'s response shaping and `health_check`.
- Logging is not modelled.
- The `env::var` reads are not modelled. Their values are inputs. `str::parse::<usize>` is an abstract parameter.
