# Zilkworm: verified models of the guest and host cores

Zilkworm runs Ethereum blocks inside a zkVM guest and checks on the host what the guest commits.
This project models the algorithms that carry that: the minimal perfect hash store of the witness,
the word-wise memory builtins, the open-addressed index, the bundle format and the run over it with
the host's own derivation of the public output, the trie walk of the encoder, and the smaller cores
beside them. Each model is proved against a plain specification: a finite map, a byte loop, a list of
blocks, a set of keys.

`dafny verify dfyconfig.toml` checks everything.

| modules | what they model |
|---|---|
| `HashIndex` | the linear-probing index against a map, over every run of operations |
| `MemWords`, `MemCells`, `MemCopy`, `MemFill`, `MemCompare` | memcpy, memmove, memset and memcmp in aligned words, for both word sizes and both builds |
| `Chd`, `MphfStore`, `MphfBuild` | the CHD solver, the blob it lays out, and both lookups in it |
| `Rlp`, `BlockRlp`, `Headers` | RLP items and block headers, as the guest and as the host read them; the header record and its encoding field by field |
| `FlatBundle`, `BundleBuild`, `PublicOutput`, `StateTransition` | bundles, their builder, the guest's run and the host's expectation |
| `Divergence` | inputs, built from the ground up, where host and guest part or a failed run leaves a root |
| `HexPrefix`, `TrieNodes`, `TrieWalk`, `Trie` | the witness walk over an encoded Merkle Patricia tree |
| `Gather`, `Overlay` | the write gathering of the HashState root check, and the overlay over every run of its operations |
| `Allocator`, `ByteCount`, `AbsentReads`, `RootMerge`, `Fetcher` | the bump allocator, the byte counter, the absent-read keys, the account merge and the service's fetcher |
| `Basics`, `Bytes`, `Sorting` | options and division; little-endian fields in buffers; what a library sort promises |

## How the models are set up

- A memory word is its little-endian bytes. Shifts, masks and bitwise operations act on bytes, with
  lemmas for their numeric meaning; the sums and products of the byte counter act on the number.
  The builtins reach memory through `MemCells.Memory` alone, which records the address and the unit
  of every access; each builtin ensures of the record that every access of the call is aligned to its
  unit and holds a byte of one of its ranges.
- Sizes that the source keeps in 32 bits are bounded by preconditions (`Buildable`, `INPUT_LIMIT`).
  The guest's `size_t` is a parameter, 2^32 or 2^64, where it truncates.
- keccak, the 64-bit mixer, the key fold and the bucket hash are arbitrary functions; the overlay's
  runs take keccak to be injective. Block bodies,
  execution, trie walks, the node, the queue and the chain tip are oracles that may answer anything.
- A trie is the map of its leaves by hashed key; in the gathering, deleting a leaf that is not there
  inserts a spurious one, as the fold does.

## Where code and promise part

- The host's `chd_solve` is documented as equal to the C++ one and lacks its co-spill pass
  (`mphf_builder.cpp:148-154`). The host's own lookup is right all the same. The guest's
  `MphfMap::find` takes an occupied slot of another key for a miss, so on such a blob it misses an
  entry exactly when its key is spilled and another body holds its slot: `MphfStore.GuestFind` states
  the equivalence, `MphfStore.OnlySpilledAreShadowed` and `MphfStore.ClearSidecarShadowsNobody` its
  two sides. The solver chooses such a solution for five keys under a mixer that is not the source's
  (`Chd.SpilledSlotsMayBeOwned`), and from the blob of the five accounts the guest misses one the host
  finds (`MphfBuild.BuildThenMiss`). No input is given for the source's own mixer.
- The 32-bit guest truncates the 64-bit block count of a bundle (`flat_bundle.cpp:226-232`), the host
  does not; and the guest does not check that a bundle starts inside the input
  (`state_transition.cpp:834`). The host follows a successful run if and only if every bundle starts
  inside the input and claims a count that fits the guest's size: `StateTransition.Transition.RunMfbd`
  states it; `Divergence.TruncatedCount` and `Divergence.StrayBundle` build an input for each, over
  which the run succeeds and the host derives nothing.
- On a run that succeeds the pre-state root is set exactly when a block was accepted. A run that fails
  and accepted nothing has it set exactly when the block it stopped at is the first of its bundle,
  passes the checks before the root, is not a flagged block with others behind it, and its root check
  reaches the walk; the root is then that block's parent's. `StateTransition.Transition.RunMfbd`
  states the root every run leaves, `StateTransition.AnchoredAtStop` this case, and
  `Divergence.AnchorsNothing` builds an input for it.
- Flags come back from a bundle exactly when there is one for each block, or none and too little room
  behind the blocks to read an engine record as flags (`BundleBuild.FlagsParse`).
- The witness walk fails exactly when an extension on its way has an embedded child
  (`Trie.WalkFinds`); `Trie.TwoKeysFail` is a tree of two keys on which it does.

## Model

| member | source | states |
|---|---|---|
| HashIndex.MaskIsModulo | zilk_core/core/common_zz/hash_index.hpp:56-62 | masking with `capacity - 1` is the modulo, for every power of two |
| HashIndex.BitCeil | zilk_core/core/common_zz/hash_index.hpp:34 | the least power of two at or above n: a power of two in [n, 2n) |
| HashIndex.CapacityFor | zilk_core/core/common_zz/hash_index.hpp:33-36 | the one power of two from 8 to 2^31 that holds twice the entries and is less than four times them, 2^31 above 2^30 entries |
| HashIndex.SizedIsOne | zilk_core/core/common_zz/hash_index.hpp:33-36 | there is one capacity for a number of entries |
| HashIndex.EmptyBucketEndsProbe | zilk_core/core/common_zz/hash_index.hpp:111-120 | an empty bucket on the probe chain of a key means the key is absent: chains have no gap |
| HashIndex.EmptyBucketAhead | zilk_core/core/common_zz/hash_index.hpp:73-86 | at load one half every probe meets an empty bucket within the table |
| HashIndex.ClaimAdds | zilk_core/core/common_zz/hash_index.hpp:75-79 | claiming the empty bucket at the end of a chain adds exactly that key and keeps every chain gapless |
| HashIndex.OverwriteUpdates | zilk_core/core/common_zz/hash_index.hpp:80-83 | overwriting in place changes exactly that key |
| HashIndex.Index.constructor | zilk_core/core/common_zz/hash_index.hpp:40-44 | the new index holds the empty map, at the capacity for its hint |
| HashIndex.Index.IndexOf | zilk_core/core/common_zz/hash_index.hpp:60-62 | the masked hash is the hash modulo the capacity: the home bucket |
| HashIndex.Index.Reserve | zilk_core/core/common_zz/hash_index.hpp:46-54 | an empty index grows to the capacity for the hint and never shrinks, any other stays; the map is unchanged |
| HashIndex.Index.Locate | zilk_core/core/common_zz/hash_index.hpp:72-86 | the probe loop finds a present key in its bucket, or the free bucket that ends its chain; a full table is unreachable |
| HashIndex.Index.Find | zilk_core/core/common_zz/hash_index.hpp:111-120 | answers as the map: the value of a present key, none otherwise |
| HashIndex.Index.Rehash | zilk_core/core/common_zz/hash_index.hpp:194-196 | the inner loop of growth ends, and re-places one entry |
| HashIndex.Index.RehashAll | zilk_core/core/common_zz/hash_index.hpp:192-197 | re-places every occupied bucket: the new table holds the same map |
| HashIndex.Index.Grow | zilk_core/core/common_zz/hash_index.hpp:187-198 | doubling keeps the map and halves the load |
| HashIndex.Index.Insert | zilk_core/core/common_zz/hash_index.hpp:67-87 | sets the key, overwriting; refuses exactly the sentinel value; never fails with fewer than 2^30 entries before it |
| HashIndex.Index.TryInsert | zilk_core/core/common_zz/hash_index.hpp:93-108 | adds an absent key, keeps a present one, says which |
| HashIndex.Index.Clear | zilk_core/core/common_zz/hash_index.hpp:126-130 | empties the map |
| HashIndex.Execute | zilk_core/core/common_zz/hash_index.hpp:33-198 | every run of reserve, insert, try_insert, find and clear, of any length, answers as a plain map does while there are fewer than 2^30 entries before each write |
| MemWords.Relane | prover/guest_common/src/mem_builtins.cpp:225-232 | two neighbouring words shifted and or-ed are the bytes that run across them |
| MemWords.BlendLow | prover/guest_common/src/mem_builtins.cpp:132-139 | the masked write of the low lanes changes those lanes only |
| MemWords.BlendHigh | prover/guest_common/src/mem_builtins.cpp:605-608 | the masked write of the top lanes of a repeated byte changes those lanes only |
| MemWords.BlendShifted | prover/guest_common/src/mem_builtins.cpp:265-266 | the masked first word of a shifted store keeps the lanes below |
| MemWords.BlendTail | prover/guest_common/src/mem_builtins.cpp:268 | the masked last word of a shifted store keeps the lanes above |
| MemWords.ShiftDownIsDivision | prover/guest_common/src/mem_builtins.cpp:253 | the lane shift down is the numeric right shift |
| MemWords.ShiftUpIsProduct | prover/guest_common/src/mem_builtins.cpp:253 | the lane shift up is the numeric left shift, modulo the word |
| MemWords.LowMaskValue | prover/guest_common/src/mem_builtins.cpp:137 | the lane mask is the number `(1 << 8k) - 1` |
| MemWords.RepeatValue | prover/guest_common/src/mem_builtins.cpp:622 | the repeated byte is `c * (~0 / 0xff)` |
| MemCells.Memory.Store | prover/guest_common/src/mem_builtins.cpp:48-56 | writes one aligned word and no other byte, and records the access |
| MemCells.Memory.Load | prover/guest_common/src/mem_builtins.cpp:48-56 | reads one aligned word and records the access |
| MemCells.RuledMore | prover/guest_common/src/mem_builtins.cpp:8-10 | one more access that is aligned and holds a byte of a range keeps the rule for the whole call |
| MemCopy.CopyWordsUpto | prover/guest_common/src/mem_builtins.cpp:167-198 | the jump into the run copies exactly `words` words, lowest first |
| MemCopy.CopyWords | prover/guest_common/src/mem_builtins.cpp:200-223 | any count of words: sixteen a round, then the rest |
| MemCopy.CopyBytes | prover/guest_common/src/mem_builtins.cpp:141-165 | the byte run copies exactly n bytes |
| MemCopy.ScatterAligned | prover/guest_common/src/mem_builtins.cpp:130-139 | the partial last word gets its low bytes only |
| MemCopy.Copy32Any | prover/guest_common/src/mem_builtins.cpp:234-269 | 32 bytes between any two alignments and any overlap |
| MemCopy.MoveWordsRelaned | prover/guest_common/src/mem_builtins.cpp:317-333 | whole words re-laned from an out-of-phase source, carrying one word along |
| MemCopy.TailRelaned | prover/guest_common/src/mem_builtins.cpp:335-342 | the tail of a re-laned copy, reading the next source word only if it is needed |
| MemCopy.CopyRelaned | prover/guest_common/src/mem_builtins.cpp:315-344 | a copy from an out-of-phase source to a word boundary |
| MemCopy.CopyUnaligned | prover/guest_common/src/mem_builtins.cpp:271-345 | a copy of 16 bytes or more between ends not both aligned |
| MemCells.Memory.CopyBlock | prover/guest_common/src/mem_builtins.cpp:75-88 | a delegated copy gets two different 32-byte blocks, and both accesses are recorded |
| MemCopy.BlocksUpto | prover/guest_common/src/mem_builtins.cpp:94-125 | the jump into the run copies exactly `blocks` blocks |
| MemCopy.CopyBlocks | prover/guest_common/src/mem_builtins.cpp:787-797 | any count of blocks: sixteen a round, then the rest |
| MemCopy.LeadAligns | prover/guest_common/src/mem_builtins.cpp:779-786 | the lead words end both operands on a 32-byte boundary |
| MemCopy.CopyByBlocks | prover/guest_common/src/mem_builtins.cpp:779-802 | lead words, blocks, words and a masked end make one copy |
| MemCopy.MemcpyRest | prover/guest_common/src/mem_builtins.cpp:770-808 | what memcpy leaves to the block build is the same copy |
| MemCopy.Memcpy | prover/guest_common/src/mem_builtins.cpp:351-404 | the destination gets the source, for every length, alignment, word size and build and every overlap a forward copy gets right; no other byte changes; every access of the call is aligned and holds a byte of one of the two ranges |
| MemCopy.WordsBackAligned | prover/guest_common/src/mem_builtins.cpp:428-446 | the backward words of a copy in phase |
| MemCopy.WordsBackRelaned | prover/guest_common/src/mem_builtins.cpp:447-461 | the backward words of a copy out of phase |
| MemCopy.MoveBackward | prover/guest_common/src/mem_builtins.cpp:416-468 | the backward copy of an overlap above its source |
| MemCopy.Memmove | prover/guest_common/src/mem_builtins.cpp:409-469 | the destination gets the source as it was, for every length, alignment and overlap; no other byte changes; every access of the call is aligned and holds a byte of one of the two ranges |
| MemCopy.MovedIsOne | prover/guest_common/src/mem_builtins.cpp:234-469 | what a copy promises leaves one result |
| MemCopy.BuildsAgree | prover/guest_common/src/mem_builtins.cpp:374-379 | plain build, block build and the byte loop leave the same memory |
| MemFill.FillWordsUpto | prover/guest_common/src/mem_builtins.cpp:473-504 | the jump into the run stores exactly `words` words, highest first |
| MemFill.ZeroBlocks | prover/guest_common/src/mem_builtins.cpp:527-535 | zero blocks copied from the zero block, sixteen a round |
| MemFill.ZeroByBlocks | prover/guest_common/src/mem_builtins.cpp:517-538 | large zero fills by lead words, blocks and words |
| MemFill.FillWords | prover/guest_common/src/mem_builtins.cpp:508-550 | any count of words, in either build |
| MemFill.FillPartial | prover/guest_common/src/mem_builtins.cpp:552-559 | the partial last word gets its low bytes only |
| MemFill.FillHead | prover/guest_common/src/mem_builtins.cpp:605-610 | the masked first word gets its top bytes only |
| MemFill.FillAligned | prover/guest_common/src/mem_builtins.cpp:573-594 | a fill from a word boundary |
| MemFill.Fill | prover/guest_common/src/mem_builtins.cpp:569-615 | a fill from any address |
| MemFill.Memset | prover/guest_common/src/mem_builtins.cpp:618-626 | exactly the n bytes get the value, truncated to a byte; every access is aligned and holds a byte of the range or, in the block build, of the zero block |
| MemFill.FillBuildsAgree | prover/guest_common/src/mem_builtins.cpp:510-550 | both builds of memset leave the same memory |
| MemCompare.FirstDifferenceDecides | prover/guest_common/src/mem_builtins.cpp:630-642 | the first differing byte decides |
| MemCompare.FirstDifferenceAt | prover/guest_common/src/mem_builtins.cpp:630-642 | the byte search answers for the unit it is given |
| MemCompare.CompareTail | prover/guest_common/src/mem_builtins.cpp:733-741 | the masked last word compares exactly its low bytes |
| MemCompare.Next | prover/guest_common/src/mem_builtins.cpp:644-660 | the next word of an operand, aligned or re-laned |
| MemCompare.CompareUnaligned | prover/guest_common/src/mem_builtins.cpp:662-691 | operands not both aligned |
| MemCompare.CompareAddress | prover/guest_common/src/mem_builtins.cpp:713-724 | twenty bytes: words, then a half |
| MemCompare.CompareAligned | prover/guest_common/src/mem_builtins.cpp:699-743 | two aligned operands |
| MemCompare.Memcmp | prover/guest_common/src/mem_builtins.cpp:694-760 | the unsigned difference at the first differing byte, zero if none, for every length and alignment; every access is aligned and holds a byte of one of the operands |
| Chd.FastMod | prover/stateless_validator/src/mfbd.rs:118-121 | a hash is reduced below n |
| Chd.XorBits | prover/stateless_validator/src/mfbd.rs:198-200 | each bit of the exclusive or is set exactly if it is set in one of the two |
| Chd.ProbeInput | prover/stateless_validator/src/mfbd.rs:163-200 | with the two stored factors the probe hashes the key plus the golden ratio times seed, displacement and golden ratio or-ed exclusively, all in 64 bits |
| Chd.FillBuckets | prover/stateless_validator/src/mfbd.rs:165-174 | each bucket lists the keys whose hash names it, in ascending order |
| Chd.OrderBuckets | prover/stateless_validator/src/mfbd.rs:176-180 | larger buckets first, equal ones in ascending order, each once |
| Chd.TryFactor | prover/stateless_validator/src/mfbd.rs:202-216 | the positions of a whole bucket, free and distinct; a collision if and only if one is taken or two are equal |
| Chd.PlaceBucket | prover/stateless_validator/src/mfbd.rs:196-226 | the factor of the first displacement up to 2^20 that fits the bucket; none if and only if none up to it fits |
| Chd.SettlePlaced | prover/stateless_validator/src/mfbd.rs:217-225 | placing a bucket keeps every earlier key in its slot |
| Chd.SettleSpilled | prover/stateless_validator/src/mfbd.rs:227-235 | spilling a bucket keeps every earlier key in its slot and gives the spilled ones the slot factor zero leads to |
| Chd.TrySeed | prover/stateless_validator/src/mfbd.rs:162-236 | one seed: the buckets settled in order of size, each at the first displacement with room or spilled; stored factors reproduce every slot, and in the finished table no displacement within the budget would place a spilled bucket |
| Chd.OutcomeIsOne | prover/stateless_validator/src/mfbd.rs:162-236 | a seed has one outcome: two solutions it could come to are equal |
| Chd.ChdSolve | prover/stateless_validator/src/mfbd.rs:140-265 | always a solution: unspilled keys have distinct slots below n, stored factors reproduce every slot, spilled keys come from buckets of factor zero that no displacement up to 2^20 would place in the finished table; of the outcomes of the seeds from zero on, 32 at most, it is the first without spills, else the first with the fewest; the final error is unreachable |
| Chd.SpilledSlotsMayBeOwned | prover/stateless_validator/src/mfbd.rs:227-235 | five keys and a mixer, not the source's, for which the solver chooses a solution where spilled keys probe a slot another key owns |
| Chd.CoSpill | zilk_core/core/common_zz/mphf_builder.cpp:148-154 | the co-spill pass ends and spills exactly the keys that share a slot with a spilled one; every such slot is free |
| Chd.ChdSolveCoSpilling | zilk_core/core/common_zz/mphf_builder.cpp:23-189 | the C++ solver: a solution where no unspilled key owns the slot of a spilled one; of the co-spilled outcomes of the seeds the first without spills, else the first with the fewest |
| MphfStore.ReadHeader | prover/stateless_validator/src/mfbd.rs:400-410 | the header fields of a blob are the layout it was written with |
| MphfStore.ProbeSlot | prover/stateless_validator/src/mfbd.rs:412-423 | the two-step probe reads the slot the stored factors name |
| MphfStore.LowerBound | prover/stateless_validator/src/mfbd.rs:433-453 | the binary search ends at the first sidecar entry not below the key |
| MphfStore.SearchSide | prover/stateless_validator/src/mfbd.rs:433-471 | the sidecar search finds the entry with the address, or shows there is none |
| MphfStore.SlotAnswers | prover/stateless_validator/src/mfbd.rs:425-431 | a slot whose body starts with the address is the entry of that address |
| MphfStore.NobodysAddress | prover/stateless_validator/src/mfbd.rs:473-474 | no match in the slot and none in the sidecar: no entry has the address |
| MphfStore.AddrLookup | prover/stateless_validator/src/mfbd.rs:399-474 | the host's lookup answers with the offset of the entry of that address, zero if there is none, whatever collided or spilled |
| MphfStore.ShortKeys | prover/stateless_validator/src/mfbd.rs:95-102 | two addresses share a short key if and only if they agree on the first seven bytes and the last |
| MphfStore.GuestFind | zilk_core/core/common_zz/mphf_map.hpp:240-259 | the guest's lookup finds an entry if and only if its key is not shadowed, and never finds a wrong one |
| MphfStore.OccupiedDecides | zilk_core/core/common_zz/mphf_map.hpp:248-253 | at an occupied slot, the entry is there if and only if it is not shadowed |
| MphfStore.FreeSlotDecides | zilk_core/core/common_zz/mphf_map.hpp:254-257 | at a free slot, the entry is in the sidecar |
| MphfStore.OnlySpilledAreShadowed | zilk_core/core/common_zz/mphf_map.hpp:240-259 | only keys the solver spilled can be shadowed |
| MphfStore.ClearSidecarShadowsNobody | zilk_core/core/common_zz/mphf_builder.cpp:136-154 | on a co-spilled solution nobody is shadowed |
| MphfBuild.Gather | prover/stateless_validator/src/mfbd.rs:274-289 | distinct keys in ascending order, repeats and their first body to the sidecar, nothing but empty bodies lost and nothing doubled; only repeated keys go there |
| MphfBuild.RouteSpilled | prover/stateless_validator/src/mfbd.rs:294-304 | spilled keys leave their bodies to the sidecar |
| MphfBuild.PutsHeader | prover/stateless_validator/src/mfbd.rs:338-350 | all twelve header fields are written where the reader looks: magic, version 3, seed and data size too |
| MphfBuild.StartBlob | prover/stateless_validator/src/mfbd.rs:336-355 | the zeroed buffer with header and factors: every slot still reads zero |
| MphfBuild.WriteFactors | prover/stateless_validator/src/mfbd.rs:352-355 | the displacement factors are in their table |
| MphfBuild.WritePlaced | prover/stateless_validator/src/mfbd.rs:357-372 | each placed body is in the data section and its slot points at it; no other slot is used |
| MphfBuild.WriteSideBodies | prover/stateless_validator/src/mfbd.rs:374-382 | each sidecar body is in the data section, after the placed ones |
| MphfBuild.SortSides | prover/stateless_validator/src/mfbd.rs:384-385 | the sidecar sorted by key |
| MphfBuild.WriteSides | prover/stateless_validator/src/mfbd.rs:385-390 | the sidecar table is written and disturbs no other section |
| MphfBuild.SizeFits | prover/stateless_validator/src/mfbd.rs:306-334 | the layout stays within the worst case a caller can compute |
| MphfBuild.Arrange | prover/stateless_validator/src/mfbd.rs:274-304 | slots and sidecar hold the entries; the solution is the one the solver of either side chooses |
| MphfBuild.BuildMphf | prover/stateless_validator/src/mfbd.rs:271-393 | the blob represents a store that holds exactly the entries, by the solution the solver chooses; its header has the magic asked for and the size of the data section, which ends the blob; a key that neither repeats nor spills is placed |
| MphfBuild.BuildThenLookUp | prover/stateless_validator/src/mfbd.rs:140-474 | from account bodies to bytes and back: any address gives a non-zero offset holding exactly its body, or zero if it is not in the list; on a co-spilled blob the guest finds the same |
| MphfBuild.BuildThenMiss | zilk_core/core/common_zz/mphf_map.hpp:240-259 | five accounts whose host-built blob, under a mixer that is not the source's, makes the guest miss one that the host finds |
| Rlp.CompactInverts | zilk_core/core/common/endian.hpp:87-150 | what has no leading zero is the compact form of its number |
| Rlp.CompactRoundTrip | zilk_core/core/common/endian.hpp:80-150 | a number that fits the width is read back from its compact form |
| Rlp.CompactReencodes | zilk_core/core/common/endian.hpp:87-150 | what the compact decoder accepts, the encoder gives back |
| Rlp.HostReadsGuestItems | prover/prover_airbender/src/public_output.rs:190-210 | the host reads every item the guest reads, and reads it the same |
| Rlp.HostItemOfPrefix | prover/prover_airbender/src/public_output.rs:190-210 | an item is read from its own bytes alone |
| Rlp.HeadReencodes | zilk_core/core/rlp/decode.cpp:14-86 | the guest accepts one head for each payload, the one it writes |
| Rlp.StringReencodes | zilk_core/core/rlp/decode.cpp:88-102 | a string item is the encoding of its payload |
| Rlp.UintIsString | zilk_core/core/rlp/encode.hpp:50-61 | an integer is written as the string of its compact bytes |
| Rlp.HeadReads | zilk_core/core/rlp/decode.cpp:14-86 | the guest reads back the head it writes |
| BlockRlp.FieldReencodes | zilk_core/core/rlp/decode.hpp:36-78 | what a field decoder accepts is what the encoder writes for the value |
| BlockRlp.FieldsReencode | zilk_core/core/types/block.cpp:197-215 | the required fields re-encode to the bytes they took |
| BlockRlp.GroupsReencode | zilk_core/core/types/block.cpp:217-275 | the optional fields re-encode to the bytes they took |
| BlockRlp.PayloadLengthIsSize | zilk_core/core/types/block.cpp:76-126 | the payload length summed over the fields is the size of their encoding |
| BlockRlp.HeaderReencodes | zilk_core/core/types/block.cpp:133-281 | decoding then encoding a header gives back exactly its bytes, so `header.hash()` is the hash of the bytes received |
| BlockRlp.HeaderDecodes | zilk_core/core/types/block.cpp:133-281 | encoding then decoding a header gives it back, whatever follows |
| BlockRlp.BlockDecodes | zilk_core/core/types/block.cpp:339-391 | a block of an encoded header and a body decodes to the header |
| BlockRlp.HeaderIsWellFormed | zilk_core/core/types/block.cpp:197-215 | a decoded header has a parent hash, a state root and a gas value |
| BlockRlp.SkipAgrees | prover/prover_airbender/src/public_output.rs:127-129 | the host steps over the items the guest decoded |
| BlockRlp.HostAgreesOnBlock | prover/prover_airbender/src/public_output.rs:120-136 | on every block the guest decodes the host gets the guest's block hash and gas |
| Headers.CellsEncode | zilk_core/core/types/block.cpp:76-181 | the encoding of a header is its head and its fields one by one, in the order of the record, those of later forks where it has them |
| Headers.FieldsByName | zilk_core/core/types/block.hpp:31-41 | the fields the run reads are the parent hash, the state root and the gas used |
| Headers.BlockOfHeader | zilk_core/core/types/block.cpp:133-281 | for every header and body: the guest decodes the block of the two to that header, encodes it back to the same bytes, and the host gets the hash of those bytes and the header's gas used |
| Headers.DecodedIsHeader | zilk_core/core/types/block.cpp:184-281 | every block the guest decodes is the encoding of a header followed by a body it accepts, and what it gets is that header |
| Headers.BlockHashAndGas | prover/prover_airbender/src/public_output.rs:120-136 | the host's loops give, for every block of a header, the hash of the header's bytes and its gas used |
| FlatBundle.HostParsesGuestBlocks | prover/prover_airbender/src/public_output.rs:86-99 | the blocks the guest cuts out, the host cuts out |
| FlatBundle.HostParsesGuestBundle | zilk_core/core/types_zz/flat_bundle.cpp:218-257 | on a bundle the guest loads, the host reads the same blocks, flags and size if the claimed count fits the guest's size, and refuses the bundle if not |
| FlatBundle.ReadBlocks | zilk_core/core/types_zz/flat_bundle.cpp:230-253 | the block loop computes the blocks |
| FlatBundle.ReadEngines | zilk_core/core/types_zz/flat_bundle.cpp:260-281 | the record loop computes the engine records, or an overrun |
| FlatBundle.LoadedRecords | zilk_core/core/types_zz/flat_bundle.cpp:258-281 | a loaded bundle has a record exactly for the blocks whose flag has its second bit |
| FlatBundle.CheckApart | zilk_core/core/types_zz/flat_bundle.cpp:182-204 | the pairwise check passes if and only if no two non-empty sections share a byte |
| FlatBundle.LoadFlatBundle | zilk_core/core/types_zz/flat_bundle.cpp:145-354 | the loader accepts exactly structured bundles with sound records whose first section passes for the parent block and third for the ancestors, and gives their blocks, flags and records |
| BundleBuild.SectionsInOrder | prover/stateless_validator/src/mfbd.rs:932-939 | sections follow one another and never overlap |
| BundleBuild.BuildFlatBundle | prover/stateless_validator/src/mfbd.rs:912-989 | everything the bundle was built from is in its place in the bytes |
| BundleBuild.BuiltIsStructured | prover/stateless_validator/src/mfbd.rs:932-957 | a built bundle has its sections in range, 8-aligned and disjoint |
| BundleBuild.BlocksParse | prover/stateless_validator/src/mfbd.rs:961-969 | the block walk of either side finds every block where it was put |
| BundleBuild.FlagsParse | prover/prover_airbender/src/public_output.rs:100-105 | the flags come back if and only if they can be told from what follows them |
| BundleBuild.BuiltParses | prover/prover_airbender/src/public_output.rs:73-117 | either reader gets the blocks back, ends where the next bundle starts, and gets the flags back exactly when they are readable |
| BundleBuild.EnginesParse | zilk_core/core/types_zz/flat_bundle.cpp:258-281 | the guest reads the engine record back for the block flagged for it |
| BundleBuild.GuestLoadsBuilt | zilk_core/core/types_zz/flat_bundle.cpp:145-354 | the guest loads a built bundle whose parent block and ancestors decode: the same blocks, flags and record |
| BundleBuild.WrappedFolds | prover/prover_airbender/src/public_output.rs:54-70 | the host's value for a wrapped bundle is the fold over the blocks and flags it was built from |
| BundleBuild.BuiltValue | prover/prover_airbender/src/public_output.rs:86-117 | by the headers of the blocks: with no flag but 0 and 2 the value is the hash of the last block and the gas of all in 64 bits; with 1 or 3 for the last, that of the blocks before it; in general that of the blocks without an odd flag |
| BundleBuild.BuildWrapParse | prover/stateless_validator/src/mfbd.rs:912-998 | building, wrapping and parsing: the envelope starts with both magics and versions, the host's walker gets back exactly the blocks and flags and ends at the end of the envelope, sections are disjoint and 8-aligned, and its value, by the headers of the blocks, is the hash of the last block without an odd flag and the gas of all such blocks; of all blocks where every flag is 0 or 2, of all but the last where its flag is 1 or 3 |
| BundleBuild.CountTruncates | zilk_core/core/types_zz/flat_bundle.cpp:226-232 | bundles that claim 2^32 blocks: the 32-bit guest loads them as bundles without blocks, the host refuses |
| PublicOutput.AddBundleBlocks | prover/prover_airbender/src/public_output.rs:73-117 | the host's loops fold the unflagged blocks of a bundle in: by the headers of its blocks, the hash of the last without an odd flag, and the gas before plus theirs in 64 bits |
| PublicOutput.BundlesByHeaders | prover/prover_airbender/src/public_output.rs:54-117 | the fold over any bundles is the hash of the last kept header and the wrapping sum of the gas used of the kept ones |
| PublicOutput.SectionEnds | prover/prover_airbender/src/public_output.rs:77-84 | the range check and the bundle's end |
| PublicOutput.ExpectedForMfbd | prover/prover_airbender/src/public_output.rs:54-70 | the host's walk computes its expectation: over bundles that stand one behind the other, by the headers of their blocks, the hash of the last without an odd flag and the gas of all of them in 64 bits |
| PublicOutput.Committed | prover/prover_airbender/src/public_output.rs:145-164 | the committed bytes equal a hash if and only if the words are the words of that hash |
| StateTransition.EngineMatches | zilk_core/dev/state_transition.cpp:83-96 | no mismatch if and only if the record names the block's hash and lists its versioned hashes |
| StateTransition.Transition.CheckRoot | zilk_core/dev/state_transition.cpp:649-659 | the first walk of the run anchors the pre-state root |
| StateTransition.Transition.Precheck | zilk_core/dev/state_transition.cpp:141-211 | a block passes if and only if the headers hold where it is the first, it decodes, fits its fork, matches its engine record if it has one, and executes on a complete witness |
| StateTransition.Transition.Conclude | zilk_core/dev/state_transition.cpp:212-265 | taken, rejected or stopped, each exactly when: taken only if it extends the block before it in its bundle; rejected if flagged and only the root fails; a rejected block anchors nothing |
| StateTransition.Transition.RunBlock | zilk_core/dev/state_transition.cpp:131-266 | one block: the run stops if and only if the block does not settle as its flag demands, and then the pre-state root is as it was or the one a first block anchors; rejected only if flagged and last, taken only if unflagged |
| StateTransition.Transition.RunOneBundle | zilk_core/dev/state_transition.cpp:98-269 | succeeds if and only if the bundle is good, said of its blocks without the run; the blocks accepted and the pre-state root left are those the blocks determine, in failure too; on success hash and gas are what the host folds in, and each block is bound to its engine record |
| StateTransition.Transition.RunMfbd | zilk_core/dev/state_transition.cpp:804-853 | succeeds if and only if the envelope is good; the blocks accepted and the pre-state root left are those the envelope determines, and every accepted block executed on a complete witness, fits its fork and ends in its root, in failure too. On success the accepted blocks are exactly those without a flag byte or with an even one, in order; an odd flag marks a last block, and with flag 1 one that has a fault; the result is the sum of the gas used of the accepted headers modulo 2^64, the hash is that of the last header's bytes, the post root its state root, and each header names the one before it in its bundle; the host derives a value if and only if each bundle starts inside the input and its count fits, and that value is the committed hash and the gas |
| StateTransition.PlainIsGood | zilk_core/dev/state_transition.cpp:98-269 | a bundle without odd flags is good if and only if it is sanitized for a known network, every block decodes, fits its fork, executes on a complete witness and ends in its root, names the header before it and matches its record, and with several blocks the first ran on the whole state |
| StateTransition.Transition.Named | zilk_core/dev/state_transition.cpp:131-266 | the accepted blocks by their headers: which, in what order, chained, with what gas, hash and root |
| StateTransition.StepAdvances | zilk_core/dev/state_transition.cpp:833-848 | the host stays in step with the run over one more bundle, or has given up for good |
| StateTransition.AnchoredAtStop | zilk_core/dev/state_transition.cpp:212-265 | a run that accepts nothing leaves a pre-state root if and only if it stops at the first block of a bundle that anchors one |
| Divergence.TruncatedCount | zilk_core/core/types_zz/flat_bundle.cpp:226-232 | an input whose run succeeds on the 32-bit guest and from which the host derives nothing |
| Divergence.StrayBundle | zilk_core/dev/state_transition.cpp:833-836 | an input whose second bundle starts past its end: where the guest reads a bundle there its run succeeds, and the host derives nothing |
| Divergence.AnchorsNothing | zilk_core/dev/state_transition.cpp:216-242 | an input whose run fails, accepts nothing and leaves a pre-state root |
| HexPrefix.Decode | prover/stateless_validator/src/mfbd.rs:622-648 | the decoder's loop computes the flags and nibbles, refusing more than 64 |
| HexPrefix.DecodeInverts | prover/stateless_validator/src/mfbd.rs:622-648 | decoding inverts encoding for every path up to 64 nibbles and refuses every longer one |
| HexPrefix.EncodedBytes | prover/stateless_validator/src/mfbd.rs:622-648 | the encoding byte by byte: 0x20 for a leaf, 0x10 and the first nibble for an odd path, then two nibbles a byte, the high one first |
| TrieNodes.DecodeBranch | prover/stateless_validator/src/mfbd.rs:528-579 | the decoder's loop computes the sixteen stored forms, or the error or panic it meets |
| TrieNodes.ShortIsNoBranch | prover/stateless_validator/src/mfbd.rs:663-664 | a two-element node never decodes as a branch |
| TrieWalk.WalkTree | prover/stateless_validator/src/mfbd.rs:650-710 | the recursion over the shared path buffer is the walk of the prefix, and leaves the prefix as it was |
| TrieWalk.WalkSlots | prover/stateless_validator/src/mfbd.rs:664-684 | the slot loop walks the children in order |
| Trie.BranchDecodes | prover/stateless_validator/src/mfbd.rs:528-579 | an encoded branch decodes to the forms of its children |
| Trie.LeafOpens | prover/stateless_validator/src/mfbd.rs:586-620 | an encoded leaf decodes to its path and value |
| Trie.ExtensionOpens | prover/stateless_validator/src/mfbd.rs:586-620 | an encoded extension decodes to its path and hash; with an embedded child it is refused |
| Trie.WalkFinds | prover/stateless_validator/src/mfbd.rs:650-710 | the walk ends well if and only if no extension on the way has an embedded child, and then reports the leaves of present nodes |
| Trie.TwoKeysFail | prover/stateless_validator/src/mfbd.rs:586-620 | two keys that part in their last nibble: an extension with an embedded branch, on which the walk fails |
| Trie.ReportedUnder | prover/stateless_validator/src/mfbd.rs:691-697 | every reported path is the full 64 nibbles |
| Trie.ReportedAscends | prover/stateless_validator/src/mfbd.rs:665-682 | the reported keys strictly ascend, so none comes twice |
| Trie.ReportedIsStored | prover/stateless_validator/src/mfbd.rs:650-710 | a key and value are reported if and only if present nodes lead to that value under that key |
| Trie.ForEachLeaf | prover/stateless_validator/src/mfbd.rs:712-725 | the walk from the root of any tree, over any node map that answers for its nodes: it fails if and only if the root is there and an embedded extension child is on the way, reports nothing where the root is that of the empty tree, zero or missing, and otherwise exactly the keys that present nodes lead to |
| Trie.WalkReportsStoredKeys | prover/stateless_validator/src/mfbd.rs:650-725 | from the root of any tree, the empty one too: each stored key reachable through present nodes, the root among them, is reported once, with its path and value, in ascending order; nothing where the root is empty, zero or absent |
| Allocator.RoundUpAligns | prover/guest_airbender/src/simple_allocator.cpp:90 | the masked sum is the next multiple of a power of two |
| Allocator.RoundUpFinds | prover/guest_airbender/src/simple_allocator.cpp:90-93 | the rounding finds room exactly if some aligned place has it |
| Allocator.Pow2Test | prover/guest_airbender/src/simple_allocator.cpp:187-189 | `x & (x - 1)` is zero exactly for powers of two |
| Allocator.Heap.constructor | prover/guest_airbender/src/simple_allocator.cpp:37-42 | the heap starts with no blocks and all zero |
| Allocator.Heap.RoomNeverWraps | prover/guest_airbender/src/simple_allocator.cpp:40-52 | the rounded pointer stays at or below the end, so the room left never wraps |
| Allocator.Heap.Bump | prover/guest_airbender/src/simple_allocator.cpp:47-96 | a block at the rounded pointer, or null exactly if no aligned place from the pointer on leaves room or the alignment is above 2 MiB; the invariant is kept |
| Allocator.Heap.Calloc | prover/guest_airbender/src/simple_allocator.cpp:155-167 | null on overflow; otherwise every byte of the block is zero without clearing |
| Allocator.Heap.Realloc | prover/guest_airbender/src/simple_allocator.cpp:169-185 | the new block starts with the bytes at the old one, only heap bytes are read, older bytes stay |
| Allocator.Heap.Memalign | prover/guest_airbender/src/simple_allocator.cpp:191-193 | a block aligned as asked; null exactly for anything but a power of two and for what does not fit |
| Allocator.Heap.PosixMemalign | prover/guest_airbender/src/simple_allocator.cpp:199-209 | error 22 exactly for what is no power of two or no multiple of four, 12 exactly for what does not fit, and an aligned block otherwise |
| Allocator.Heap.Execute | prover/guest_airbender/src/simple_allocator.cpp:47-209 | over every run of calls and writes blocks are aligned, stay inside the heap and share no byte, and a call gets null exactly where it does not fit behind the last block or its arguments are refused |
| ByteCount.AddLanes | zilk_core/core/common_zz/data_byte_count.hpp:17-18 | a sum whose lanes do not overflow does not carry across lanes |
| ByteCount.FlagsAre | zilk_core/core/common_zz/data_byte_count.hpp:48 | each lane's flag says whether its byte is non-zero |
| ByteCount.LaneTotalIsSum | zilk_core/core/common_zz/data_byte_count.hpp:51-54 | pair sums and the multiplication leave the exact sum of the lanes in the top bits |
| ByteCount.CountWords | zilk_core/core/common_zz/data_byte_count.hpp:39-55 | up to 255 words: no lane overflows, and the total is the count of non-zero bytes |
| ByteCount.CountNonZero | zilk_core/core/common_zz/data_byte_count.hpp:23-60 | the scalar count, for every view, alignment and word width |
| Gather.ApplyDenotes | zilk_core/dev/check_root_hashstate.hpp:69-115 | writes that do not meet, with no deletion that misses, fold to what they mean |
| Gather.CoverDenotes | zilk_core/dev/check_root_hashstate.hpp:177-181 | a change left out that would change nothing does not matter |
| Gather.GatherSlots | zilk_core/dev/check_root_hashstate.hpp:168-197 | slot writes in strictly ascending hash order; no zero write without a leaf to delete, none dropped that matters |
| Gather.GatherLive | zilk_core/dev/check_root_hashstate.hpp:165-209 | a live record's write is its fields with its slot writes over its storage, empty if wiped |
| Gather.GatherWrites | zilk_core/dev/check_root_hashstate.hpp:135-221 | the sorted writes folded over the pre-state give the state the overlay stands for, and every deletion is of a leaf the pre-state has |
| Overlay.HashState.FindOrCreate | zilk_core/core/state_zz/hash_state.cpp:768-787 | the overlay gets a record of the account and reads as before |
| Overlay.HashState.Revive | zilk_core/core/state_zz/hash_state.cpp:790-806 | a deleted account starts over, empty and without storage |
| Overlay.HashState.SetFromDiff | zilk_core/core/state_zz/hash_state.cpp:808-823 | nonce and balance are set, the code and every slot stay |
| Overlay.HashState.SetSlot | zilk_core/core/state_zz/hash_state.cpp:825-833 | the slot reads the value, a zero too, and no other slot changes |
| Overlay.HashState.ApplyCode | zilk_core/core/state_zz/hash_state.cpp:835-874 | the code is set, and created code leaves no slot |
| Overlay.HashState.Destruct | zilk_core/core/state_zz/hash_state.cpp:989-1008 | the account and all its slots are gone |
| Overlay.HashState.DestructDead | zilk_core/core/state_zz/hash_state.cpp:1010-1031 | the account goes exactly if it is absent, or has nonce and balance zero and no code; any other is left alone |
| Overlay.EntryIsKept | zilk_core/dev/check_root_hashstate.hpp:135-221 | every record the operations leave is one the gathering may take |
| Overlay.HashState.Execute | zilk_core/core/state_zz/hash_state.cpp:768-1051 | over every run of operations each account and slot reads as the operations say |
| Overlay.ClearedOnlyIfUnused | zilk_core/core/state_zz/hash_state.cpp:1015-1031 | over every run that only clears dead accounts at an address: the account goes if and only if its nonce and balance are zero and its code hash is that of the empty string; otherwise it and its storage stay |
| Overlay.RemovedOnlyBy | zilk_core/core/state_zz/hash_state.cpp:989-1031 | after any run an operation leaves no account if and only if it destructs it, or clears it absent or unused |
| Overlay.StartsUnused | zilk_core/core/state_zz/hash_state.cpp:768-806 | after any run a write to an absent account starts from nonce zero, balance zero and the code hash of the empty string |
| Overlay.HashState.Commit | zilk_core/dev/check_root_hashstate.hpp:135-221 | the gathered writes folded over the pre-state hold, for every address and slot, what the overlay reads |
| Overlay.RunAndCommit | zilk_core/dev/check_root_hashstate.hpp:135-221 | from a pre-state through any run of operations to the committed leaves: every account and slot is what the operations make of it, no zero slot has a leaf if none had one before, and an account only clearings touch stays unless it has no nonce, balance and code |
| AbsentReads.Collect | zilk_core/dev/state_transition.cpp:282-287 | the packed entries name exactly the reads on the list |
| AbsentReads.SameKeySameRun | zilk_core/dev/state_transition.cpp:288-295 | in the sorted order equal keys stand within one run of equal folds |
| AbsentReads.Repeats | zilk_core/dev/state_transition.cpp:292-295 | the backward scan finds every earlier read of the key |
| AbsentReads.AbsentReadKeys | zilk_core/dev/state_transition.cpp:278-299 | each distinct key on the list that is not written, once, and nothing else, for any fold |
| RootMerge.InsertionSort | zilk_core/dev/state_transition.cpp:356-365 | a sorted permutation, in place |
| RootMerge.SortCreated | zilk_core/dev/state_transition.cpp:353-369 | the created accounts in hash order |
| RootMerge.Merge | zilk_core/dev/state_transition.cpp:396-573 | the updates of all accounts of both sides in hash order, strictly where each side's hashes are distinct: a deletion for an existing account that is gone, a claim of absence for a created one, a leaf kept for an existing one nobody changed, a leaf written for one changed or created, each exactly then; never when the sides share a hash, and a clash only then |
| RootMerge.SortAndMerge | zilk_core/dev/state_transition.cpp:345-573 | sort and merge together: each account of both sides once, in strictly ascending hash order where the hashes of each side are distinct, each kind of update exactly for its accounts; never when the sides share a hash, and a clash only then |
| RootMerge.UpdatesYieldState | zilk_core/dev/state_transition.cpp:396-573 | applied to the leaves of the state before, the updates give those of the accounts: new values for the changed and created, no leaf for the deleted, every other leaf as it was; they apply if and only if no created account that is gone has a leaf |
| RootMerge.AppliedAt | zilk_core/dev/state_transition.cpp:396-573 | each leaf after updates of distinct hashes, whatever their order |
| Fetcher.Loop.constructor | prover/prover_airbender/src/service.rs:248-270 | the start block, or the one after the tip |
| Fetcher.Loop.Post | prover/prover_airbender/src/service.rs:333-342 | a block's queued post starts exactly when it is to be proved, a client is set and no post of it was sent before: at most once |
| Fetcher.Loop.Pick | prover/prover_airbender/src/service.rs:312-417 | one block, exactly: passed, retried with the counter up by one, given up at the fifth failure, enqueued, or stopped where the queue is gone |
| Fetcher.Loop.Pass | prover/prover_airbender/src/service.rs:289-421 | one pass keeps the invariant, makes progress, ends short of the tip only at a failed fetch, skips ahead exactly when the lag demands it, and has caught up only by reaching the tip or giving a block up |
| Fetcher.Loop.RunToEnd | prover/prover_airbender/src/service.rs:272-451 | with an end block the loop ends, and a block up to it is in the queue if and only if it is to be saved, or at the interval of proving or executing, and did not fail exactly five times in a row; none is in it twice |
| Fetcher.Loop.RunFor | prover/prover_airbender/src/service.rs:272-445 | over any number of passes, whatever the tips, enqueued numbers and queued posts strictly increase |

## Left out

- EVM execution, keccak, signatures, KZG, and the trie folds themselves: oracles or arbitrary functions here.
- Block bodies: transactions, ommers and withdrawals decode by an oracle; only headers are decoded for real.
- Parent block and ancestor sections of a bundle: their decoders are oracles of the loader.
- The chain id of the run, the EJSN and SIB inputs and the HashState build of the run.
- `build_direct_blob` beyond its account map: the fixed tables around it would only add easy members.
- `check_root`'s per-account storage updates, the USE_HASH_KEY recovery paths and `check_root_new_block`.
- The layout validation of a blob (`validate_mphf`).
- Error codes of the RLP decoders: every refusal is one answer.
- Headers.BlockOfHeader: headers with a field of a later fork and without one of an earlier fork, which no fork has.
- RPC, HTTP, logging, waiting and the prover's worker loop: the fetcher's environment.
- The worker's use of a queued post once the block is handed over.
- TrieWalk.WalkTree: recursion deeper than `fuel` is not modelled; the theorems hold for every fuel at or above the height of the tree.
- TrieNodes.DecodeBranch: a 64-bit length that overflows the address sum counts as a panic, whatever the build does.
- MphfBuild.BuildMphf: inputs whose worst-case blob reaches 4 GiB are outside its precondition, as the source's 32-bit sizes are not checked.
- StateTransition.Transition.RunMfbd: inputs above 2 GiB are outside its precondition.
- Fetcher.Loop.Pick: block numbers do not reach 2^64.
- HashIndex.Execute: runs that write with 2^30 entries or more in the table, where it would have to grow past its largest capacity.
- Overlay.HashState.Execute: reads of what the witness leaves out, which the source counts and refuses, the code bytes behind a hash, and the journal; the pre-state is what the built cache holds.
- MemFill.Memset: the block build reads the zero block, so the filled range may not cover it.
