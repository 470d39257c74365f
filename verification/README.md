# Proof-of-work ledger, modelled in Dafny

This project models the core of a small proof-of-work blockchain written in Rust.
A block records an id, a payload, a timestamp, the hash of its predecessor, a nonce and its own hash.
The model covers four parts:

- **Mining** (`Blocks.MineBlock`) tries nonces 0, 1, 2, … and stops at the first one whose digest has a binary form that starts with the difficulty prefix `"00"`.
- **Block construction** (`Blocks.NewBlock`) takes the next id from a counter, mines, and fills in the record.
- **Validation** (`Ledger.IsBlockValid`) runs four checks in a fixed order: linkage, difficulty, id sequence, and the recomputed hash. `Ledger.IsChainValid` applies it to every adjacent pair of a chain.
- **The ledger** (`Ledger.App`) owns the chain. `genesis` pushes a freshly mined block. `try_add_block` appends a block only when validation accepts it against the tip.

Modules:

- `Wrappers`: `Option` and `Result`.
- `Integers`: `u8`, `u64` and `i64` as bounded subsets of `int`.
- `Hex`: the lower-case base16 codec of the `hex` crate (section 8 of RFC 4648), with both round trips.
- `Digest`: the hash-function type `HashFn`, Rust's `{:b}` formatting, `hash_to_binary_representation` and the difficulty test.
- `Blocks`: the block record, the id counter, `mine_block` and `Block::new` (`src/block.rs`).
- `Ledger`: `is_block_valid`, `is_chain_valid` and `App` (`src/app.rs`).

The digest function `calculate_hash` is SHA-256 over a JSON rendering of the five fields.
The model treats it as a parameter `hasher: HashFn`: any total function onto 32-byte strings.
Every result therefore holds whatever the hash function is.

Panics in the source appear as `Err(Panic)` results. The ledger is left unchanged; the id counter has already advanced, because `Block::new` takes its id before it mines.
There are four:

- `HashNotHex`: the `expect` on `hex::decode`.
- `IdOverflow`: `previous_block.id + 1` past `u64::MAX`.
- `NonceOverflow`: `nonce += 1` past `u64::MAX`.
- `EmptyChain`: the `expect` on `blocks.last()`.

Overflow follows the debug-build semantics of Rust, where arithmetic overflow panics.
Because the nonce cannot pass `u64::MAX`, mining terminates in the model without a fuel bound.
The id counter is an `AtomicU64`, whose `fetch_add` wraps around silently; the model's `IdKeeper` wraps the same way.

Points where the model follows details of the code:

- **Binary form of a byte.** `{:b}` does not pad, so a zero byte gives `"0"` and any other byte gives a numeral that starts with `'1'`. As a consequence, a digest meets the prefix `"00"` exactly when its first two bytes are zero (`Digest.MeetsDifficultyIff`).
- **Genesis block.** `genesis` mines its block through `Block::new`, like any other block. The call in `src/app.rs:20` passes one argument to a two-argument constructor. The model takes the previous hash as a parameter and uses `"hello"` as the payload.
- **Field name.** `src/app.rs:55` reads the field `noce`; the model reads it as `nonce`.
- **Hex case.** `hex::decode` accepts upper-case digits as well as lower-case ones. `Hex.Decode` does the same, so `Hex.EncodeDecode` holds for lower-case strings.

## Model

| member | source | states |
|---|---|---|
| `Hex.DecodeEncode` | src/block.rs:57 | decoding the hex that mining writes gives back the digest bytes, for every byte string |
| `Hex.EncodeDecode` | src/app.rs:39 | re-encoding a decoded lower-case hex string gives back the same string |
| `Hex.EncodeInjective` | src/app.rs:50-61 | two different digests never have the same hex string, so the hash comparison in `is_block_valid` compares digests |
| `Hex.LeadingZeroBytes` | src/app.rs:39-40 | a hex string whose first two decoded bytes are zero starts with `"0000"` |
| `Digest.FormatBinaryRoundTrip` | src/app.rs:85 | the `{:b}` numeral of a number reads back as that number |
| `Digest.FormatBinaryShape` | src/app.rs:85 | `{:b}` writes only `'0'`/`'1'`; it writes `"0"` exactly for zero and otherwise starts with `'1'` |
| `Digest.ByteWidth` | src/app.rs:84-86 | each byte contributes between one and eight characters |
| `Digest.BinaryReprFront` | src/app.rs:84-86 | the binary form of a hash is the first byte's numeral followed by the binary form of the rest |
| `Digest.BinaryReprShape` | src/app.rs:81-88 | the binary form of a hash is made only of bits, with between 1 and 8 characters per byte |
| `Digest.MeetsDifficultyIff` | src/app.rs:39-40 | the binary form starts with `DIFFICULTY_PREFIX` `"00"` if and only if the hash has at least two bytes and the first two are zero |
| `Digest.HashToBinaryRepresentation` | src/app.rs:81-88 | the loop that pushes one `{:b}` numeral per byte builds exactly the binary form of the hash |
| `Blocks.IdSequenceAt` | src/block.rs:23 | the i-th id handed out by successive `fetch_add` calls is the starting value plus i, modulo 2^64 |
| `Blocks.IdsIncreaseAndDiffer` | src/block.rs:23 | ids from successive calls strictly increase until the counter wraps; any 2^64 successive ids are pairwise distinct |
| `Blocks.IdKeeper.constructor` | src/block.rs:38 | the counter starts at 0 |
| `Blocks.IdKeeper.FetchAdd` | src/block.rs:23 | returns the counter's old value and advances it by one, wrapping at 2^64 |
| `Blocks.FetchAddMany` | src/block.rs:23 | k successive takes from the counter receive exactly `IdSequence` from its starting value, so the increase and distinctness lemmas above are about the counter's ids |
| `Blocks.MineBlock` | src/block.rs:40-61 | a returned nonce meets the difficulty; it is the smallest nonce that does; the returned hash is the hex of its digest. If no `u64` nonce meets the difficulty, the increment overflows |
| `Blocks.NewBlock` | src/block.rs:21-35 | the block copies `previous_hash`, `data` and the clock reading; its id is the counter before the increment; the counter advances by one; nonce and hash are what mining finds, the nonce being the first that meets the difficulty. It panics only when no `u64` nonce meets the difficulty |
| `Ledger.IsBlockValid` | src/app.rs:33-64 | a broken link is a plain rejection whatever the other fields hold; once the link holds, a hash that is not hex is a panic and not a rejection; the id-overflow panic happens exactly when the link and difficulty checks pass and the predecessor's id is `u64::MAX`; no other panic occurs |
| `Ledger.IsBlockValidIff` | src/app.rs:33-64 | the block is accepted if and only if all four hold: it links to the predecessor, its id is the predecessor's plus one, its hash is the hex of its own digest, and that digest starts with two zero bytes |
| `Ledger.AcceptedHashLeadsWithZeros` | src/app.rs:39-40 | an accepted block's hash string starts with `"0000"` |
| `Ledger.MinedBlockIsValid` | src/app.rs:33-64 | mining agrees with validation: a block with the mined nonce and hash, numbered next and linked to its predecessor, is accepted |
| `Ledger.TamperedBlockRejected` | src/app.rs:50-61 | changing the hashed fields of an accepted block without recomputing its hash gets it rejected whenever the digest changes |
| `Ledger.IsChainValid` | src/app.rs:66-78 | the pair loop as written: true if and only if every `is_block_valid(chain[i-1], chain[i])` accepts, so chains of length 0 or 1 are valid; otherwise the verdict is that of the first pair not accepted |
| `Ledger.AsWrittenRejectsLinkedChain` | src/app.rs:69-72 | with the arguments in that order, a properly linked chain of two or more blocks fails at its first pair |
| `Ledger.IsChainValidIntended` | src/app.rs:66-78 | the same loop with block i checked against block i-1: true if and only if the chain is linked; otherwise the verdict is that of the first failing pair |
| `Ledger.LinkedChainIds` | src/app.rs:45 | along a linked chain, block i has the first block's id plus i |
| `Ledger.ChainLinkedAppend` | src/app.rs:24-31 | appending a block keeps a chain linked exactly when the block is accepted against the old tip |
| `Ledger.App.constructor` | src/app.rs:13-17 | a new ledger has no blocks |
| `Ledger.App.Genesis` | src/app.rs:19-22 | the chain grows by exactly one mined block with payload `"hello"`, whose nonce is the first that meets the difficulty; the existing blocks stay unchanged; the counter advances by one. It panics only when no `u64` nonce meets the difficulty |
| `Ledger.App.TryAddBlock` | src/app.rs:24-31 | on an empty chain it panics; otherwise the block is appended exactly when it is accepted against the tip, and the chain is unchanged on a rejection or a panic; a linked chain stays linked |

## Findings

| source | as written | input that shows it | evidently intended | confidence | as-written member | corrected member |
|---|---|---|---|---|---|---|
| src/app.rs:72 | `is_block_valid(first, second)` checks the earlier block against the later one | any chain `[g, b]` where `try_add_block` accepted `b` on top of `g`: the call then needs `g.id == b.id + 1`, but `b.id == g.id + 1` | `is_block_valid(second, first)`: each block checked against its predecessor | high; not executed | `Ledger.AsWrittenRejectsLinkedChain` | `Ledger.IsChainValidIntended` |

`Ledger.IsChainValid` models the loop as written. The invariant that `Ledger.App.TryAddBlock` preserves is the intended one, `Ledger.ChainLinked`.

## Left out

- `calculate_hash` (SHA-256 over the JSON object built by `serde_json::json!`) is foreign code. It is the parameter `hasher`, and JSON key order is not modelled. `App::new` therefore takes the hash function as an argument.
- The clock `Utc::now()` is the parameter `now` of `NewBlock` and `Genesis`.
- Logging (`warn!`, `error!`, `info!`) is left out, including the progress message every 100000 nonces.
- The atomicity and `Release` ordering of `ID_KEEPER` are left out. The counter is a plain field of an `IdKeeper` object that callers pass in, not process-wide state.
- The `Serialize`/`Deserialize` derives on `Block` are left out.
- Release-build overflow is not modelled. There, `previous_block.id + 1` and `nonce += 1` wrap to 0 instead of panicking, and mining would loop forever when no nonce meets the difficulty.
- After a panic, the Rust thread unwinds. The model instead returns `Err` with the ledger unchanged.
- Longest-chain fork choice is not part of this model: the two source files contain no code for it.
