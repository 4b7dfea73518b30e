# Proof-of-work blocks and their parallel miner

A Dafny model of `src/block.rs` from the `blockchain` crate. The crate holds a
chain of blocks. Each block carries:

- the SHA-256 hash of its predecessor;
- a generation counter;
- a difficulty;
- a data string;
- a proof.

A proof is valid when the SHA-256 digest of the block's *hash string* ends in
`difficulty` zero bits. The hash string is `hex(prev_hash):generation:difficulty:data:proof`.

Blocks are mined in two ways:

- serially, by trying 0, 1, 2, … in turn;
- in parallel, by splitting a proof range into tasks on a work queue and taking
  the first task output that re-verifies.

The model has five modules:

| file | module | contents |
|---|---|---|
| `ints.dfy` | `Ints`, `Optional` | `u8` and `u64`, powers of two, division facts, an `Option` type |
| `digests.dfy` | `Digests` | 32-byte digests, their big-endian value, trailing-zero arithmetic |
| `encoding.dfy` | `Encoding` | decimal and lowercase-hex numerals, splitting at `:`, with their decoders |
| `block.dfy` | `Blocks` | the block, `initial`/`next`, the hash string and digest, validity, `mine_serial` |
| `mining.dfy` | `Mining` | `MiningTask::run`, the task partition, the receive loop, `mine_range`, `mine_for_proof`, `mine` |

How the crate's effects are modelled:

- **The digest function** is a parameter `h: string -> Digest`. Every
  contract holds for every such function, SHA-256 among them. The
  counterexample lemmas build their own digest function, so they show the
  behaviour under some digest function, not under SHA-256.
- **A panic** in `block.rs` becomes a precondition. These are `unwrap` of an
  unmined block's proof, `u64` overflow, a division by zero, and an
  `end - start` underflow.
- **The work queue and the workers** are replaced by their sequential meaning.
  Each task runs once, and its output arrives in an order given as the
  parameter `arrival`, a permutation of the task indices.
- **The receive loop** is the function `SelectProof`. It reads
  `end - start + 1` outputs in arrival order and returns the first one that
  re-verifies, or 0. `None` stands for `mine_range` waiting for an output that is
  never sent.

## Model

| member | source | states |
|---|---|---|
| Blocks.Initial | src/block.rs:20-30 | the first block has generation 0, an all-zero predecessor hash, empty data, no proof and the given difficulty |
| Blocks.Next | src/block.rs:32-41 | defined only for a mined predecessor whose generation can grow; the successor's predecessor hash is the digest of `previous`, its generation is one more, its difficulty is the same, and it holds the given data and no proof |
| Blocks.ChainShape | src/block.rs:20-41 | in a chain built by `initial` and `next`, every block's generation is its position and every block has the first block's difficulty |
| Blocks.ChainExtends | src/block.rs:32-41 | setting a proof on the last block of a chain and appending `next` of it gives a chain one block longer |
| Blocks.EncodeRoundTrip | src/block.rs:43-52 | a hash string decodes back into the fields and proof it was built from, even when the data contains `:` |
| Blocks.HashStringDecodes | src/block.rs:43-52 | the hash string for a candidate proof decodes to the block's four fields and that proof |
| Blocks.HashStringInjective | src/block.rs:43-52 | two equal hash strings come from the same four fields and the same proof |
| Blocks.CountersRoundTrip | src/block.rs:47-51 | generation, difficulty, data and proof joined by `:` split back into the same four values |
| Encoding.DecimalRoundTrip | src/block.rs:47-50 | the decimal `to_string` numeral of a number reads back as that number |
| Encoding.DecimalShape | src/block.rs:47-50 | a decimal numeral is non-empty, all digits, starts with 0 only for zero, and never contains `:` |
| Encoding.HexRoundTrip | src/block.rs:46 | the `{:02x}` rendering of bytes reads back as the same bytes |
| Encoding.HexShape | src/block.rs:46 | the hex rendering has two characters per byte and never contains `:` |
| Encoding.SplitFirstJoined | src/block.rs:51 | a `:`-joined string whose head has no `:` splits at its first `:` into the head and the tail |
| Encoding.SplitLastJoined | src/block.rs:51 | a `:`-joined string whose tail has no `:` splits at its last `:` into the head and the tail |
| Encoding.ParseDecimalCanonical | src/block.rs:47-50 | a numeral without a leading zero that the decoder accepts is exactly the `to_string` numeral of its value (the converse of `DecimalRoundTrip`) |
| Blocks.MinedHashStringDecodes | src/block.rs:54-58 | the hash string of a mined block decodes to its four fields and its stored proof |
| Blocks.Hash | src/block.rs:68-72 | defined only for a mined block (the `unwrap`); it is the digest of the block's `hash_string`, linking `hash` to `hash_string` |
| Blocks.HashIgnoresStoredProof | src/block.rs:60-66 | the digest for a candidate proof does not depend on the proof stored in the block |
| Blocks.SetProof | src/block.rs:74-76 | after `set_proof(p)` the block holds `Some(p)`, its hash string is the one for candidate `p`, and no other field changes |
| Blocks.MeetsDifficultyIffDivisible | src/block.rs:78-97 | the byte check (the last `d/8` bytes are zero, and the byte before them is a multiple of `2^(d%8)`) holds exactly when the digest, read as a big-endian number, is divisible by `2^d` |
| Blocks.ZeroDifficultyAcceptsAll | src/block.rs:78-97 | at difficulty 0 every digest is accepted |
| Blocks.LowerDifficultyStillMet | src/block.rs:78-97 | a digest accepted at some difficulty is accepted at every smaller one |
| Blocks.IsValid | src/block.rs:99-104 | an unmined block is not valid; a mined block is valid exactly when its stored proof is, that is, when its digest has `difficulty` trailing zero bits |
| Blocks.MineSerial | src/block.rs:109-115 | given that some valid proof exists, the recorded proof is the least valid one, nothing but the proof changes, and the block is valid |
| Mining.Run | src/block.rs:180-190 | a task reports the least valid proof of its range, or 0 when its range holds none |
| Mining.ScanRangeFindsLeast | src/block.rs:180-190 | a task reports the least valid proof of its range, or 0 when the range holds no valid proof |
| Mining.ScanFindsValid | src/block.rs:180-190 | a range holding a valid proof makes its task report a valid proof |
| Mining.EnqueueTasks | src/block.rs:123-135 | the enqueue loop builds the partition's tasks in order, one task per chunk |
| Mining.PartitionShape | src/block.rs:123-135 | there are `chunks` tasks of `(end - start) / chunks + 1` proofs each, for the same block; the first starts at `start`, each starts where the previous one ends, and the last ends past `end` |
| Mining.PartitionCovers | src/block.rs:123-135 | every proof of `[start, end)` lies in exactly one task |
| Mining.ChunkOf | src/block.rs:123-135 | the task that covers a proof is a task index, and its range contains the proof |
| Mining.RunTasks | src/queue.rs:40-54 | each task enqueued by `mine_range` (src/block.rs:129-133) is run once by a worker, which sends `run().unwrap()`; the outputs are exactly the tasks' reports, placed in the order given |
| Mining.SelectProof | src/block.rs:136-144 | a non-zero answer of the receive loop is one of the outputs and re-verifies; waiting forever happens only when there are fewer outputs than reads and none of them re-verifies |
| Mining.SelectProofChoosesFirst | src/block.rs:136-144 | the receive loop answers the first re-verifying output among those it reads; if none re-verifies it answers 0, or waits forever when it runs out of outputs |
| Mining.SelectFindsValid | src/block.rs:136-144 | if a re-verifying output is among those read, the answer is a valid proof |
| Mining.SelectInvalidMeansNoValid | src/block.rs:136-144 | an answer that does not re-verify means no output read re-verifies |
| Mining.MineRange | src/block.rs:117-146 | a non-zero answer is valid; when there are no more tasks than reads, a valid proof in any task's range (which reaches past `end`) makes the answer valid; with more reads than tasks and proof 0 invalid, it waits forever exactly when no proof in any task's range is valid |
| Mining.MineRangeComplete | src/block.rs:117-146 | when there are no more tasks than reads, a valid proof in any task's range makes `mine_range` answer a valid proof |
| Mining.MineRangeHangs | src/block.rs:117-146 | with more reads than tasks, no valid proof in any task's range and proof 0 invalid, `mine_range` waits forever |
| Mining.MineRangeLocal | src/block.rs:117-146 | a non-zero answer is the least valid proof of one task's range |
| Mining.MineRangeBlocks | src/block.rs:136-144 | the receive loop waits forever only when it reads more outputs than there are tasks and no proof in any task's range is valid |
| Mining.ValidOutputFor | src/block.rs:123-144 | a valid proof in a task's range makes that task's output valid, wherever that output arrives |
| Mining.NoValidOutputMeansNoneValid | src/block.rs:123-144 | when no output re-verifies, no proof in any task's range is valid |
| Mining.NoneValidMeansNoValidOutput | src/block.rs:123-144 | the converse: when no proof in any task's range, nor proof 0, is valid, no output re-verifies |
| Mining.SearchFits | src/block.rs:148-153 | up to difficulty 60, `8 * 2^d` and every task bound fit in a `u64` |
| Mining.ReceivesVersusChunks | src/block.rs:148-153 | up to difficulty 8 the loop reads fewer outputs than the 2345 tasks; from difficulty 9 on it reads at least as many |
| Mining.MineForProof | src/block.rs:148-153 | a non-zero answer is valid; up to difficulty 8 it always answers; from difficulty 9 on it answers a valid proof if one lies below `SearchReach(d) = 2345 * (8 * 2^d / 2345 + 1)`, the end of the last task, and waits forever exactly when none does; waiting forever implies that no proof below `SearchReach(d)`, and so none up to `8 * 2^d`, is valid |
| Mining.Mine | src/block.rs:155-157 | records the `mine_for_proof` answer as the block's proof and changes nothing else; the same cases as `MineForProof`, stated as `is_valid` of the mined block |
| Mining.ReceiveBoundMissesValid | src/block.rs:136-144 | with more tasks than reads, `mine_range` can answer 0, which is invalid, although its range holds a valid proof |
| Mining.ReceiveBoundWaitsForever | src/block.rs:136-144 | with fewer tasks than reads and no valid proof in the task's range, `mine_range` waits forever |
| Mining.MineRangeCorrected | src/block.rs:117-146 | reading one output per task, the search never waits forever, and it answers a valid proof whenever `[start, end)` holds one |

## Findings

| source | as written | input that shows it | evidently intended | confidence | as-written member | corrected member |
|---|---|---|---|---|---|---|
| src/block.rs:136 | the receive loop reads `end - start + 1` outputs, not one per task | (a) More tasks than reads: the proofs `[0, 2)` in 4 tasks, only proof 1 valid, and task 1's output arriving last. The answer is 0, which is invalid. This matches `mine_for_proof` at difficulty 8 or less: 2345 tasks and at most 2049 reads. (b) Fewer tasks than reads: the proofs `[0, 2)` in 1 task covering `[0, 3)`, and no valid proof in `[0, 3)`. The loop waits forever. This matches `mine_for_proof` from difficulty 9 on: it waits forever exactly when no proof below `2345 * (8 * 2^d / 2345 + 1)` is valid, which is past `8 * 2^d` (4690 against 4096 at difficulty 9), so only when none up to `8 * 2^d` is. | read exactly `chunks` outputs, one per task, and return the first that re-verifies | medium; not executed | Mining.ReceiveBoundMissesValid | Mining.MineRangeCorrected |

Both examples use a digest function the lemmas construct, not SHA-256.
`Mining.ReceiveBoundWaitsForever` shows case (b). `Mining.MineRange` models the
loop as written, and `Mining.MineForProof` and `Mining.Mine` keep it. Their
contracts therefore carry the difficulty split.

## Left out

- `src/queue.rs` is not part of this model. Its `WorkQueue` (threads, channels, `shutdown`) becomes a task list run once each, plus an arrival order. Concurrency itself, the `workers` count and the shutdown of idle workers are not modelled.
- SHA-256 and the UTF-8 encoding of the hash string are not modelled. The digest function is the parameter `h`.
- `MiningTask::new` (src/block.rs:168-176) is plain construction. It is the `MiningTask` datatype constructor.
- `src/block_tests.rs` prints results and asserts nothing. Its scenarios (`initial`, `next`, `set_proof`, `mine`) are covered by the members above.
- `Blocks.Next`, `Mining.MineRange`, `Mining.MineForProof`, `Mining.Mine` require what a debug build checks by panicking: `u64` overflow, division by zero, underflow, and `8 * (1 << difficulty)` overflowing from difficulty 61 on. The release build's wrap-around is not modelled.
- `Blocks.MineSerial` requires a valid proof to exist. Without one, `mine_serial` loops until `p += 1` overflows.
- `Mining.MineForProof` and `Mining.Mine` promise a valid proof only from difficulty 9 on. Below that, the receive loop reads fewer outputs than there are tasks (see Findings).
- The loop's `break` in `mine_range` is modelled. The `q.shutdown()` before it only stops the workers and is not modelled.
- The hash string's fields are not length-prefixed. The encoding is still decodable, because only the data can hold `:` and it sits between fields that cannot.
- No search reports an exhausted range as such. `mine_range` answers 0 instead, or waits forever (see Findings).
- A zero chunk count makes `mine_range` divide by zero and panic. The model requires a positive chunk count instead.
- `mine_range` assumes `workers >= 1`. With zero workers, `WorkQueue::new` (src/queue.rs:18-37) spawns no thread and drops its only output sender, so the first `recv` (src/queue.rs:65-68) panics at its `expect`. The model has no `workers` parameter and its tasks always run.
- The partition's last task ends past `end`, so a search may try proofs at or above `end`. `PartitionShape` and `MineRangeLocal` state this as `mine_range` does it.
