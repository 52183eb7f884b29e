# SlimChain core, modelled in Dafny

This project models four pieces of SlimChain, a blockchain that keeps state off-chain.

- **Partial Merkle trie** (`trie.dfy`, `prune.dfy`).
  - A trie of `Hash`, `Extension`, `Branch` and `Leaf` nodes, keyed by nibbles.
  - Branch nodes have 16 slots and a memo cell for their digest.
  - `prune_key` walks a key from the root and records the path on a stack of `TempNode` frames. It replaces the subtree just past the kept prefix with a bare `Hash` node, then rebuilds the path bottom-up.
- **Transaction trie differences** (`diff.dfy`). A transaction's difference is a main-trie difference plus a map from account address to account difference. `merge_tx_trie_diff` merges two of these.
- **Proof of work** (`pow.dfy`). Covers:
  - the difficulty rule `compute_diff`;
  - the nonce test;
  - the mining loop `create_new_block`;
  - `verify_consensus`;
  - the genesis block.

`common.dfy` holds `Option`, `Result` and the integer widths `u64` and `U256`.

Hash functions are parameters.

- The trie takes a `Hasher`: one function for leaves, one for extensions, one for branches.
- The block digest is a function `blockHash`.

As the source's `to_digest` does, `Trie.Digest` answers a branch from its memo cell when the cell is filled. `Trie.FreshDigest` recomputes everything and ignores every cell; it is the reference the memoised digest is proved against.

The proof-of-work arithmetic is that of a release build:

- `as i64` and `as u64` reinterpret bits.
- Signed overflow wraps.
- `/` truncates toward zero.

Timestamps are integer nanoseconds since the Unix epoch.

Where a loop changes state step by step, the model keeps the loop:

- the walk and rebuild loops of `prune_key`;
- the 16-slot array loops of the proof conversions;
- the map-merging loop of `merge_tx_trie_diff`;
- the nonce search of `create_new_block`.

Each of these methods is proved against a function that specifies its result.

## Model

| member | source | states |
|---|---|---|
| Trie.Digest | slimchain-merkle-trie/src/partial_trie/branch.rs:16-30 | The digest of a subtree: a `Hash` node is its own digest; a leaf is hashed from its nibbles and value; an extension from its nibbles and its child's digest; a branch goes through its memo cell (`Trie.CachedBranchDigest`). `Trie.MemoisedDigestIsFresh` ties it to the reference `Trie.FreshDigest`. |
| Trie.CachedBranchDigest | slimchain-merkle-trie/src/partial_trie/branch.rs:16-30 | `to_digest` without the write-back: a filled memo cell is the answer; an empty one gives the branch hash of the 16 children's digests, where an empty slot reaches the branch hash as `None` (the zero hash stands in only for a missing value, in `Trie.BranchValueHash`). |
| Trie.MemoisedDigestIsFresh | slimchain-merkle-trie/src/partial_trie/branch.rs:16-30 | When every memo cell holds the hash of its node's children, the memoised digest equals the digest recomputed from scratch. |
| Trie.ToDigest | slimchain-merkle-trie/src/partial_trie/branch.rs:16-30 | The memoised branch digest. A filled cell is returned as is. Otherwise the hash of the children's digests is computed and stored, so a second call returns the same value. The node's children are untouched, and a consistent cell stays consistent. |
| Trie.NewBranch | slimchain-merkle-trie/src/partial_trie/branch.rs:70-75 | `BranchNode::new` keeps exactly the given children, has an empty memo cell, and is cache-consistent under every hasher. |
| Trie.GetChild | slimchain-merkle-trie/src/partial_trie/branch.rs:77-80 | `get_child(i)` reads slot `i` of the 16 slots; `Trie.SetChild` and `Trie.ValueHashAfterSetChild` state what it reads after a write. |
| Trie.SetChild | slimchain-merkle-trie/src/partial_trie/branch.rs:82-85 | Writing slot `i` through `get_child_mut`, corrected: `get_child(i)` then reads the new child, the other 15 slots are unchanged, and the cleared memo cell is consistent. |
| Trie.WriteChildKeepingCache | slimchain-merkle-trie/src/partial_trie/branch.rs:82-85 | The same write as the source performs it: the same slots as `SetChild`, but the old memo cell is kept. |
| Trie.WriteIntoNewBranchIsSetChild | slimchain-merkle-trie/src/partial_trie/branch.rs:70-85 | On a node fresh from `BranchNode::new`, whose cell is empty, the source's write and the corrected `SetChild` give the same node. |
| Trie.StaleDigestAfterChildWrite | slimchain-merkle-trie/src/partial_trie/branch.rs:16-30 | Witness: under a hasher that tells the two child lists apart, a node whose memoised digest is 0, once `Hash(5)` is written into slot 0 through `get_child_mut`, still reports 0, while the recomputed digest is 1 and the cell is no longer consistent; `SetChild` reports the new digest. |
| Trie.SetChildKeepsCachesConsistent | slimchain-merkle-trie/src/partial_trie/branch.rs:82-85 | With the cell cleared on write, storing a cache-consistent child into a cache-consistent node leaves the whole subtree cache-consistent. |
| Trie.SameChildren | slimchain-merkle-trie/src/partial_trie/branch.rs:61-65 | `PartialEq`: two branches are equal when their slots are equal, comparing children with the same equality, so memo cells are ignored at every depth (`Trie.SameTree` for subtrees). |
| Trie.SameTreeReflexive | slimchain-merkle-trie/src/partial_trie/branch.rs:61-67 | The equality is reflexive, as `impl Eq` promises. |
| Trie.SameTreeSymmetric | slimchain-merkle-trie/src/partial_trie/branch.rs:61-67 | The equality is symmetric, as `impl Eq` promises. |
| Trie.SameTreeTransitive | slimchain-merkle-trie/src/partial_trie/branch.rs:61-67 | The equality is transitive, as `impl Eq` promises. |
| Trie.MemoCellIsIgnored | slimchain-merkle-trie/src/partial_trie/branch.rs:61-65 | A branch equals itself with any other memo cell. |
| Trie.NestedMemoCellsAreIgnored | slimchain-merkle-trie/src/partial_trie/branch.rs:61-65 | Witness: two branches whose slot 0 holds the same empty nested branch, once with memo cell `Some(7)` and once with none, are equal, though they are different values. |
| Trie.SameTreeFreshDigest | slimchain-merkle-trie/src/partial_trie/branch.rs:16-30 | Equal subtrees have the same digest recomputed from scratch. |
| Trie.EqualBranchesHaveEqualDigests | slimchain-merkle-trie/src/partial_trie/branch.rs:61-65 | The equality is sound for hashing: two equal branches whose subtrees are cache-consistent throughout have the same memoised digest. |
| Trie.BranchValueHash | slimchain-merkle-trie/src/partial_trie/branch.rs:87-99 | `value_hash` for a non-empty key: an empty slot `key[0]` gives the zero hash; a present child is asked for the rest of the key. |
| Trie.ValueHashAfterSetChild | slimchain-merkle-trie/src/partial_trie/branch.rs:87-99 | `value_hash` for a non-empty key. After writing slot `key[0]`: an empty slot gives the zero hash; a present child is asked for `key[1..]`. A key that starts elsewhere gets the old answer. The memo cell never affects the result. |
| Trie.CountMaterialized | slimchain-merkle-trie/src/partial_trie/branch.rs:101-112 | The number of slots holding a non-`Hash` subtree is at most the number of slots. It is 0 exactly when no slot is materialised, and it is the full count exactly when every slot is. |
| Trie.NumOfMaterializedChildren | slimchain-merkle-trie/src/partial_trie/branch.rs:101-112 | `num_of_materialized_children` is at most 16, and it is 0 exactly when none of the 16 slots holds a materialised child. |
| Trie.CountAfterUpdate | slimchain-merkle-trie/src/partial_trie/branch.rs:101-112 | Replacing one slot changes the count by exactly what leaves and what arrives. |
| Trie.NumOfMaterializedAfterSetChild | slimchain-merkle-trie/src/partial_trie/branch.rs:101-112 | After writing one slot, the number of materialised children changes only by the old and the new content of that slot. |
| Trie.FromProof | slimchain-merkle-trie/src/partial_trie/branch.rs:32-45 | The conversion from the proof branch node fills a fresh 16-slot array. Each slot keeps its occupancy, each child is converted, and the memo cell starts empty. |
| Trie.IntoProof | slimchain-merkle-trie/src/partial_trie/branch.rs:47-59 | The conversion to the proof branch node preserves occupancy slot by slot and converts each child. |
| Trie.ConvertSlotsRoundTrip | slimchain-merkle-trie/src/partial_trie/branch.rs:32-59 | Converting slots there and back, with child conversions that undo each other, gives back the original slots. |
| Prune.PushFrame | slimchain-merkle-trie/src/partial_trie/prune.rs:44-75 | Pushing a frame grows `temp_node_prefix_len` by the frame's contribution: an extension's length, or 1 for a branch. It appends the frame's nibbles to the consumed key prefix, and the rebuild of the longer stack nests the new frame innermost. |
| Prune.PruneWalk | slimchain-merkle-trie/src/partial_trie/prune.rs:38-104 | The walk and rebuild as a function: once the consumed prefix exceeds the kept length the subtree becomes `Hash(digest)`; a `Hash` node is "already pruned"; a leaf, a diverging extension or an empty slot leave the trie unchanged; a key that ends at a branch is an error; otherwise the result is rebuilt into the same extension or branch. |
| Prune.PruneKeySpec | slimchain-merkle-trie/src/partial_trie/prune.rs:12-107 | `prune_key` as a function: no root is an error, a kept length of 0 gives the root's digest, and otherwise the walk from the root decides. |
| Prune.RecordedFramesWriteAsSource | slimchain-merkle-trie/src/partial_trie/prune.rs:87-104 | Every branch frame recorded on the way down is a fresh `BranchNode::new`, so rebuilding it with `SetChild` gives what the source's `get_child_mut` write gives. |
| Prune.PruneKey | slimchain-merkle-trie/src/partial_trie/prune.rs:12-107 | `prune_key`'s walk and rebuild loops compute the specified result. An empty root is an error. A kept length of 0 gives the trie of the root's digest. Otherwise the result is the walk's outcome: the trie unchanged, an error, or the rebuilt trie. The loop ends because each turn descends into the trie, so it needs no assumption on extension lengths. |
| Prune.PruneAtRoot | slimchain-merkle-trie/src/partial_trie/prune.rs:38-85 | The outcomes at the root: a `Hash` node is "already pruned"; a `Leaf`, an extension the key leaves, or an empty branch slot return the trie unchanged; a key that ends at a branch is an error. |
| Prune.PruneWalkReplacesOneSubtree | slimchain-merkle-trie/src/partial_trie/prune.rs:87-104 | A rebuilt walk follows a recorded path whose frames spell the key's prefix. It first crosses the kept prefix at the last frame, and it rebuilds that same path with only the subtree below replaced by `Hash(digest)`. |
| Prune.PruneReplacesOneSubtree | slimchain-merkle-trie/src/partial_trie/prune.rs:87-104 | The same for `prune_key` as a whole: the result is the original path with the same extension nibbles and branch siblings, and the one subtree past the kept prefix is replaced by its hash. |
| Prune.PruneWalkPreservesDigest | slimchain-merkle-trie/src/partial_trie/prune.rs:87-104 | In a cache-consistent trie, the rebuilt subtree is well formed and has the digest of the subtree it replaces. |
| Prune.PruneKeepsRootDigest | slimchain-merkle-trie/src/partial_trie/prune.rs:22-106 | A successful prune of a cache-consistent trie has a root, and that root's digest is the original root's digest. |
| Prune.PruneIsIdempotent | slimchain-merkle-trie/src/partial_trie/prune.rs:38-104 | Pruning the pruned trie with the same key and kept prefix succeeds and changes nothing. |
| TxDiff.IsEmpty | slimchain-tx-state/src/partial_trie/diff.rs:16-18 | `is_empty`: no nonce, no code hash, and an empty storage difference. |
| TxDiff.MergeAccTrieDiff | slimchain-tx-state/src/partial_trie/diff.rs:27-36 | `merge_acc_trie_diff`: the nonce and code hash of the left-hand side, and `merge_diff` of the two storage differences. |
| TxDiff.MergedTxTrieDiff | slimchain-tx-state/src/partial_trie/diff.rs:38-57 | The merge as a map: every address of either side, merged where both have it. `TxDiff.MergeTxTrieDiff` computes it. |
| TxDiff.MergeTxTrieDiff | slimchain-tx-state/src/partial_trie/diff.rs:38-57 | The merged key set is the union of both key sets. A key on one side only keeps that side's account difference; a key on both sides gets `merge_acc_trie_diff(lhs, rhs)`. The main difference is `merge_diff` of the two. Both inputs are left unchanged. |
| TxDiff.MergeAccSymmetricIff | slimchain-tx-state/src/partial_trie/diff.rs:27-36 | Nonce and code hash are taken from the left-hand side, so the merge of two account differences is symmetric exactly when both sides agree on them, as the debug assertions demand, and `merge_diff` is symmetric on the two storage differences. |
| TxDiff.MergeKeepsAccountsEmpty | slimchain-tx-state/src/partial_trie/diff.rs:16-57 | When `merge_diff` of two empty storage differences is empty, merging two transaction differences whose account differences are all empty leaves every account difference empty. |
| TxDiff.MergeKeepsNoncesAndCodeHashes | slimchain-tx-state/src/partial_trie/diff.rs:27-57 | When shared addresses agree on nonce and code hash, every address keeps the nonce and code hash either side records, so an account difference that is not empty through them stays not empty. |
| TxDiff.MergeTxSymmetric | slimchain-tx-state/src/partial_trie/diff.rs:27-57 | When shared addresses agree on nonce and code hash and `merge_diff` is symmetric, the order of the two transactions does not matter. |
| TxDiff.MergeTxAssociative | slimchain-tx-state/src/partial_trie/diff.rs:27-57 | With an associative `merge_diff`, merging three transaction differences does not depend on grouping. |
| TxDiff.MergeTxWithNothing | slimchain-tx-state/src/partial_trie/diff.rs:38-57 | Merging with a difference that touches no account, and whose main difference is neutral, gives back the left-hand side. |
| Pow.TimeSpanSeconds | slimchain-chain/src/consensus/pow.rs:66 | `num_seconds` of the time between the parent and the block: whole seconds, rounded toward zero. |
| Pow.DiffFromSpan | slimchain-chain/src/consensus/pow.rs:63-69 | The difficulty after a span of seconds, in release-build arithmetic: `(prev + (prev / 2048) * max(1 - span / 10, -99)) as u64`, wrapping in `i64`. |
| Pow.ComputeDiff | slimchain-chain/src/consensus/pow.rs:63-69 | `compute_diff`: the rule applied to the span between the block's timestamp and the parent's. |
| Pow.WrapI64 | slimchain-chain/src/consensus/pow.rs:64-68 | Signed 64-bit wrap-around: the result is in `i64` range, congruent to the input modulo 2^64, and equal to it when it is already in range. |
| Pow.AsU64 | slimchain-chain/src/consensus/pow.rs:68 | `as u64` keeps the bits: the result is congruent modulo 2^64, is the identity on `u64` values, and adds 2^64 to negative `i64` values. |
| Pow.TruncDiv | slimchain-chain/src/consensus/pow.rs:65-67 | Rust's signed `/` rounds toward zero: the quotient times the divisor lies between zero and the dividend, less than one divisor away. |
| Pow.Coeff | slimchain-chain/src/consensus/pow.rs:67 | The adjustment coefficient is never below -99, and it is at most 1 exactly when the span is above -10 seconds. |
| Pow.DiffFromSpanExact | slimchain-chain/src/consensus/pow.rs:63-69 | For a difficulty below 2^63 and a span above -10 s, `compute_diff` is exactly `prev + (prev / 2048) * coeff`, between `prev - 99 * (prev / 2048)` and `prev + prev / 2048`. The `i64` sum may wrap and `as u64` restores it (`Pow.AsU64UndoesWrap`). |
| Pow.AsU64UndoesWrap | slimchain-chain/src/consensus/pow.rs:68 | For any value in `u64` range, wrapping it to `i64` and casting back with `as u64` gives the value itself. |
| Pow.SumWrapsNearTop | slimchain-chain/src/consensus/pow.rs:63-69 | Witness: for a parent of difficulty `2^63 - 1` and a block in the same second, the `i64` sum is negative, yet `compute_diff` returns `prev + prev / 2048`. |
| Pow.FastBlockRaisesDiff | slimchain-chain/src/consensus/pow.rs:65-68 | A block 0 to 9 seconds after its parent raises the difficulty by `prev / 2048`. |
| Pow.SteadyBlockKeepsDiff | slimchain-chain/src/consensus/pow.rs:65-68 | A block 10 to 19 seconds after its parent keeps the difficulty. |
| Pow.SlowBlockHitsFloor | slimchain-chain/src/consensus/pow.rs:65-68 | From 1000 seconds on, the difficulty drops by exactly the largest step, `99 * (prev / 2048)`. |
| Pow.DiffStaysPositive | slimchain-chain/src/consensus/pow.rs:63-69 | A positive difficulty below 2^63 stays positive for spans above -10 s, so the next nonce test never divides by zero. |
| Pow.AgreesWithHomestead | slimchain-chain/src/consensus/pow.rs:63-69 | For spans that are not negative and a parent difficulty below 2^63 (the `i64` sum may wrap; `as u64` restores it), the rule equals the parent-difficulty adjustment term of EIP-2's Homestead rule (item 4 of its Specification section), without that rule's exponential term and without its minimum difficulty. |
| Pow.DiffersFromHomesteadBeforeParent | slimchain-chain/src/consensus/pow.rs:67 | A block stamped one second before its parent is where the rule and that adjustment term part. Truncation gives coefficient 1 (2048 becomes 2049), where Homestead's floor division gives 2 (2050). |
| Pow.FarPastTimestampWrapsDiff | slimchain-chain/src/consensus/pow.rs:63-69 | A timestamp about 10,900 years before the parent makes `delta * coeff` wrap in `i64`, and the difficulty 2^40 becomes 2^29. |
| Pow.FarPastTimestampZeroesDiff | slimchain-chain/src/consensus/pow.rs:63-69 | A timestamp 343,597,363,190 s before a parent of difficulty 2^40 makes the product wrap to exactly `-prev`, and the difficulty becomes 0. |
| Pow.NonceIsValid | slimchain-chain/src/consensus/pow.rs:71-79 | `nonce_is_valid` in a release build: the digest is at most `U256::MAX / diff`; a zero difficulty is outside it, as the division panics there. |
| Pow.ThresholdMeaning | slimchain-chain/src/consensus/pow.rs:78 | The test `hash <= U256::MAX / diff` holds exactly when `hash * diff <= U256::MAX`. |
| Pow.LowerDiffAcceptsMore | slimchain-chain/src/consensus/pow.rs:78 | The threshold `U256::MAX / diff` falls as the difficulty rises: a digest under the threshold of a higher difficulty is under that of every lower one. |
| Pow.VerifyConsensus | slimchain-chain/src/consensus/pow.rs:104-112 | Fails with "invalid difficulty" exactly when the difficulty is not `compute_diff` of the block's own timestamp. Succeeds exactly when the difficulty matches and `hash * diff <= U256::MAX`; otherwise fails with "invalid nonce". |
| Pow.VerifyConsensusChecked | slimchain-chain/src/consensus/pow.rs:104-112 | `verify_consensus` with a zero difficulty rejected as invalid: it fails with "invalid difficulty" exactly when the difficulty is wrong or 0, and succeeds exactly when it matches, is positive and `hash * diff <= U256::MAX`. |
| Pow.CheckedAgreesWhereSourceIsDefined | slimchain-chain/src/consensus/pow.rs:104-112 | Wherever `verify_consensus` does not panic, the checked version gives the same result. |
| Pow.ZeroDifficultyPassesDifficultyCheck | slimchain-chain/src/consensus/pow.rs:104-112 | A block claiming difficulty 0, stamped 343,597,363,190 s before a parent of difficulty 2^40, passes the difficulty test, so the nonce test divides by zero; the checked version rejects it. |
| Pow.Attempt | slimchain-chain/src/consensus/pow.rs:85-96 | The block after `k` mining rounds: the header is unchanged except for the timestamp, the difficulty is `compute_diff` of that timestamp, and the nonce is `k`. |
| Pow.CreateNewBlock | slimchain-chain/src/consensus/pow.rs:81-102 | The mining loop returns the first round whose nonce passes. That block passes `verify_consensus` against the parent and differs from the given header only in its timestamp. It also passes the checked `verify_consensus`. It returns `None` exactly when no round within the clock readings passes. |
| Pow.SaneClockKeepsDiffPositive | slimchain-chain/src/consensus/pow.rs:92-96 | With a positive parent difficulty below 2^63, and clock readings never earlier than the parent, every mining round has a positive difficulty. |
| Pow.ParseDigits | slimchain-chain/src/consensus/pow.rs:39-40 | Digit text parses exactly when every character is a decimal digit. |
| Pow.DaysFromCivilCountsDays | slimchain-chain/src/consensus/pow.rs:39-40 | The closed-form day number used to read the genesis date equals the calendar's own count from 1970-01-01, year by year (366 days in leap years) and month by month, for every year. |
| Pow.MarchToMarch | slimchain-chain/src/consensus/pow.rs:39-40 | From March 1 of one year to March 1 of the next is 366 days when the leap day lies in between, 365 otherwise. |
| Pow.GenesisTimeParses | slimchain-chain/src/consensus/pow.rs:39-40 | `2020-08-01T00:00:00Z` is 1,596,240,000 seconds after the Unix epoch. |
| Pow.GenesisBlock | slimchain-chain/src/consensus/pow.rs:34-48 | The genesis block: height 0, zero parent hash and state root, no transactions, nonce 0, the configured initial difficulty, and the timestamp 1,596,240,000 s after the epoch. |

## Left out

- Hashing is a parameter. This covers blake2b, `branch_node_hash`, leaf and extension hashing, and the block digest with its `U256` conversion. Nothing is assumed about it beyond `digest(Hash h) == h`, which holds by construction.
- `SubTree::value_hash` of the children is not part of this model. `Trie.BranchValueHash` takes the child lookup as a parameter.
- The conversion between proof subtrees and trie subtrees is not part of this model. `Trie.FromProof` and `Trie.IntoProof` take it as a parameter.
- The nibble helpers (`strip_prefix`, `split_first`, `AsNibbles`) are sequence prefix and head operations.
- `unsafe get_unchecked` is modelled as checked indexing of a 16-slot sequence.
- `Arc` sharing and the `Cell` memo are modelled as values with an optional cache field.
  - `Trie.ToDigest` returns the node with its filled cell rather than writing through a shared reference.
  - Children's memo cells, filled as a side effect of hashing a branch, are not written back. The proved `Trie.MemoisedDigestIsFresh` makes that invisible for digests.
- Extension nodes have no memo cell in this model. Their digest is always recomputed.
- `PartialTrie::from_root_hash` and `PartialTrie::from_subtree` are not part of this model. They are taken to give a trie whose root is the given `Hash` node or subtree.
- Error messages are modelled as error kinds (`EmptyRoot`, `AlreadyPruned`, `BranchHoldsNoValue`, `InvalidDifficulty`, `InvalidNonce`), not as strings.
- `PartialTrieDiff` and `merge_diff` are not part of this model. The difference type is a type parameter, and `merge_diff` and its emptiness test are function parameters.
- The `debug_assert_eq!` checks in `merge_acc_trie_diff` are not modelled. The model follows a release build, where the left-hand nonce and code hash are taken without checking; `TxDiff.MergeTxSymmetric` assumes the agreement they check.
- `HashMap` iteration order is arbitrary. `TxDiff.MergeTxTrieDiff` takes the addresses in any order, and its result does not depend on the order.
- The `cfg!(debug_assertions)` shortcut in `nonce_is_valid`, which accepts every nonce in a debug build, is not modelled.
- Wall-clock reads (`Utc::now`, `Instant::now`), `record_time!` and `tracing` logging are not modelled. The successive `Utc::now()` readings are the `clock` parameter.
- Pow.CreateNewBlock: the source loops until a nonce passes and may never stop. The model stops after `|clock|` rounds and returns `None`. It requires a positive difficulty in every round and fewer than 2^256 rounds, because the source panics on division by zero and on nonce overflow.
- Pow.VerifyConsensus: requires a positive difficulty whenever the difficulty test passes, because the source then divides by the difficulty and panics on 0. That case is reachable (see Findings). `Pow.VerifyConsensusChecked` rejects it instead.
- Pow.TimeSpanSeconds: timestamps are unbounded integers, so instants outside chrono's range (about ±262,000 years), which the source cannot represent, are not excluded.
- `PoWConfig::get().init_diff` is a parameter of `Pow.GenesisBlock`.
- `Pow.ParseRfc3339Utc` handles only the `YYYY-MM-DDTHH:MM:SSZ` form. The other forms `parse_from_rfc3339` accepts (fractional seconds, offsets, leap seconds) are not modelled.

## Findings

| source | as written | input that shows it | evidently intended | confidence | as-written member | corrected member |
|---|---|---|---|---|---|---|
| slimchain-merkle-trie/src/partial_trie/branch.rs:82-85 | `get_child_mut` hands out a mutable slot but leaves the `node_hash` memo cell filled, so `to_digest` keeps returning the digest of the old children | a branch whose digest was memoised (0, with all slots empty), then `Hash(5)` written into slot 0: the memoised digest stays 0, the recomputed digest is 1 | writing a slot clears the memo cell. `prune_key` is unaffected, because it writes only into nodes fresh from `BranchNode::new` (`Prune.RecordedFramesWriteAsSource`) | low, not executed | Trie.WriteChildKeepingCache, Trie.StaleDigestAfterChildWrite | Trie.SetChild, Trie.SetChildKeepsCachesConsistent |
| slimchain-chain/src/consensus/pow.rs:104-112 | after the difficulty test, `nonce_is_valid` divides `U256::MAX` by the block's difficulty, which `compute_diff` can make 0 because its `i64` arithmetic wraps | a parent of difficulty 2^40 and a block with difficulty 0 stamped 343,597,363,190 s before it: `compute_diff` gives 0, the difficulty test passes, and the division panics | a zero difficulty is rejected as an invalid difficulty | medium, not executed | Pow.VerifyConsensus, Pow.ZeroDifficultyPassesDifficultyCheck | Pow.VerifyConsensusChecked, Pow.CheckedAgreesWhereSourceIsDefined |
