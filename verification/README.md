# Formal model of the Satsu privacy pool

This project models the parts of the Satsu repository that compute something hard: the incremental Merkle tree, the
note store and its binary formats, the Rescue-Prime permutation with its execution trace, the withdrawal-proof
pipeline, stealth addresses, the relay queue, the token ledger and relayer failover. It proves what those parts
promise, for all inputs and all runs. `dafny verify dfyconfig.toml` checks everything.

Code that updates state in the repository is imperative here (classes, loops, arrays) and proved against a
specification function; the theorems are then about that function, so a change to either side breaks a proof.

## How to read it

| file | models |
|---|---|
| `Common.dfy`, `Digits.dfy` | results, bits, bytes, constants; positional numerals |
| `MerkleSpec.dfy` | the reference object: a dense tree padded with empty leaves, its nodes, paths and roots |
| `MerkleTree.dfy` | the incremental tree: frontier, sparse layers, path folding |
| `MerkleTheorems.dfy` | proof completeness, exact agreement of roots, binding |
| `Crypto.dfy`, `Notes.dfy` | 128-bit codec, constant-time comparison, hex, 148-byte notes, backup bundles |
| `StoreFormat.dfy`, `Store.dfy` | backup records, merging, the note store |
| `ModArith.dfy`, `Rescue.dfy`, `RescueVectors.dfy`, `Air.dfy` | Fermat's theorem, the permutation and its inverse, a known answer worked out state by state, trace against constraints |
| `ProofCodec.dfy`, `Pipeline.dfy` | the 2048-byte proof buffer; validation, witness, transcript, local verification |
| `C32.dfy`, `Stealth.dfy` | c32check with a decoder; sender, recipient and scanner over an abstract group |
| `Queue.dfy`, `Token.dfy`, `Failover.dfy` | relay queue under crashes, ledger with allowances, ranked retries |

## What is assumed

- Hash functions are uninterpreted; where an output length matters, digests have 32 bytes. No hash is assumed injective or
  free of collisions. A result that a collision could break concludes its claim or names two different byte strings with
  one digest, both of them values that the program or the padded tree computes from the inputs at hand.
- The primality of the modulus 2^128 - 45 * 2^40 + 1 is a hypothesis; Fermat's theorem is proved from it.
- Elliptic-curve points are an abstract group of prime order with a decodable encoding of every point but the identity,
  which the curve library is taken to refuse. `ThreePoints.LawsAreConsistent` shows that these laws have a model, and
  `ThreePoints.PaymentsExist` that payments succeed in it.
- AES-GCM is an ideal pair of functions with decrypt(encrypt(x)) = x; JSON is a printer and parser with a round-trip law.
- Random values, clocks, and the outcomes of network calls and file writes are parameters.
- Clarity's `ft-transfer?` and `ft-mint?` and the rollback of failing calls follow the language's documentation.
- Bytes are integers below 256; shifts and masks are written as arithmetic. Widths are explicit: 16-, 32- and 64-bit
  fields truncate, `Number` conversions round to 53 bits.

## Where the code and its comments disagree

The model follows the code.

- `packages/sdk/src/pool/merkle.ts:209` says that the proof root matches the root that insert computes. For a non-empty
  tree whose proofs cover all leaves, `MerkleTheorems.RootAgreesIff` proves that this holds exactly when the leaf count
  is a power of two or every leaf equals the empty leaf, or else the tree exhibits a SHA-256 collision.
  `MerkleTheorems.ThreeOnesDisagree` is a concrete counterexample. What is true without exception is that all proofs of
  one tree lead to one root, the padded tree's.
- `packages/sdk/src/utils/constants.ts:154` fixes one empty root for trees of every depth. By
  `MerkleTheorems.EmptyRootAgreesIff` it is the padded root at depth 20 only, or the zero chain exhibits a collision.
- `packages/sdk/src/proof/prover.ts:415` lists a Merkle-path check that `verifyProofLocally` does not make:
  `Pipeline.PathIsNotChecked` replaces the path by arbitrary bytes without changing the verdict, and
  `Pipeline.AcceptanceNeedsNoWitness` gives an accepted buffer for all public inputs that encode.
- `packages/sdk/src/notes/store.ts:78-85` describes records with a 32-byte identifier; the code writes 16 bytes, so a
  record header is 57 bytes long.
- `packages/sdk/src/notes/note.ts:98-114` keeps four bytes of the leaf index, so a note reads back as itself exactly
  when the index is below 2^32 (`Notes.NoteRoundTrip`).
- `packages/sdk/src/wallet/stealth-address.ts:232-234` says that `checkStealthPayment` always reports a match; it compares
  addresses like its wrapper.
- `prover/src/air.rs:20-70` lists constraints on the hash chain; the only transition constraint is the bit check, and
  `Air.BuiltTraceSatisfiesIff` says exactly what the constraints and assertions establish about an honest trace, and
  `Air.EveryInputIsSatisfied` that other traces satisfy them for any public inputs.

## Model

| member | source | states |
|---|---|---|
| MerkleSpec.NodeIsDense | packages/sdk/src/pool/merkle.ts:229-246 | a node computed from its two children is the root of the dense block of leaves below it, at every height |
| MerkleSpec.EmptyNode | packages/sdk/src/pool/merkle.ts:190-207 | a node that covers no leaf is the zero hash one level further up the chain: the shifted default of generateProof is right |
| MerkleSpec.CompleteNodeStable | packages/sdk/src/pool/merkle.ts:121-137 | inserting a leaf never changes a node whose block is already full, which is why the frontier may cache it |
| MerkleTree.IncrementalMerkleTree.constructor | packages/sdk/src/pool/merkle.ts:87-94 | any depth is accepted; frontier and zero hashes have as many levels as the table of 20 allows; from depth 1 to 20 the new tree meets the invariant |
| MerkleTree.IncrementalMerkleTree.Insert | packages/sdk/src/pool/merkle.ts:110-166 | rejects exactly wrong lengths and full trees, changing nothing; otherwise appends the leaf, keeps the frontier invariant and stores and returns the root of the complete block ending there, folded with zero hashes |
| MerkleTree.IncrementalMerkleTree.Carry | packages/sdk/src/pool/merkle.ts:121-144 | the carry loop stops at the first zero bit holding the padded-tree node of the complete block that ends at the new leaf |
| MerkleTree.IncrementalMerkleTree.FoldZeros | packages/sdk/src/pool/merkle.ts:146-158 | the second phase folds the block with the unshifted zero hash of each level, on the side the index bit says |
| MerkleTree.TreeStep | packages/sdk/src/pool/merkle.ts:110-166 | one insertion takes frontier, leaves, root and count from a consistent state to a consistent state |
| MerkleTree.FrontierStep | packages/sdk/src/pool/merkle.ts:121-144 | storing the carried hash at the first zero bit keeps, for every set bit of the new count, the root of the last complete block of that size |
| MerkleTree.CarryStep | packages/sdk/src/pool/merkle.ts:127-135 | at a one bit, the frontier's block and the carried one are the halves of a block twice the size |
| MerkleTree.IncrementalMerkleTree.GenerateProof | packages/sdk/src/pool/merkle.ts:183-250 | fails exactly on indices out of bounds; otherwise returns the dense tree's siblings and the bits of the index, though only sparse layers are kept |
| MerkleTree.NextLayer | packages/sdk/src/pool/merkle.ts:229-246 | one turn of the layer loop, whatever the order of keys, yields exactly the occupied nodes of the next height |
| MerkleTree.LayerLookup | packages/sdk/src/pool/merkle.ts:221-226 | a sparse lookup with the default zero hash is a lookup in the dense tree |
| MerkleTree.IncrementalMerkleTree.VerifyProof | packages/sdk/src/pool/merkle.ts:264-287 | true exactly when both arrays have depth - 1 entries and the path folds to the root |
| MerkleTree.VerifyMerkleProof | packages/sdk/src/pool/merkle.ts:295-319 | the same for the free-standing verifier, at any depth |
| MerkleTheorems.ProofsReachPaddedRoot | packages/sdk/src/pool/merkle.ts:183-287 | every generated proof verifies against the padded tree's root: all proofs of one tree lead to one root |
| MerkleTheorems.ProofsVerifyExactly | packages/sdk/src/pool/merkle.ts:183-287 | a generated proof verifies against a root if and only if that is the padded root |
| MerkleTheorems.FrontierGivesPaddedRoot | packages/sdk/src/pool/merkle.ts:121-144 | frontier and leaf count alone determine the padded root, at every leaf count that the proofs cover |
| MerkleTheorems.ZeroFoldIsClimb | packages/sdk/src/pool/merkle.ts:146-158 | the second phase, told from the root downwards: the form in which it is compared with the padded tree |
| MerkleTheorems.ClimbsMeet | packages/sdk/src/pool/merkle.ts:146-158 | the second phase reaches the padded root only if the last block starts at leaf 0, or all leaves are empty leaves, or the two computations exhibit a SHA-256 collision |
| MerkleTheorems.RootAgrees | packages/sdk/src/pool/merkle.ts:110-166 | at leaf counts that are powers of two the stored root is the padded root, for any hash |
| MerkleTheorems.RootAgreesIff | packages/sdk/src/pool/merkle.ts:110-209 | the stored root is the padded root if and only if the count is a power of two or all leaves equal the empty leaf, or two named values of the tree collide under SHA-256 |
| MerkleTheorems.OwnProofsVerify | packages/sdk/src/pool/merkle.ts:110-287 | at powers of two every proof of a tree verifies against the tree's own root |
| MerkleTheorems.OwnProofsVerifyIff | packages/sdk/src/pool/merkle.ts:110-287 | a tree's proof verifies against its own root under exactly that condition, or the same collision |
| MerkleTheorems.ZeroIsAllZero | packages/sdk/src/pool/merkle.ts:190-207 | a node equal to the zero hash of its height covers nothing but empty leaves, or a node below it collides with the zero chain |
| MerkleTheorems.VerifiedLeafIsInTree | packages/sdk/src/pool/merkle.ts:295-319 | soundness: a path with siblings of any lengths that verifies a 32-byte leaf against the padded root starts at the leaf whose index its directions spell and lists that leaf's siblings, or one of its steps collides |
| MerkleTheorems.EmptyRootAgreesIff | packages/sdk/src/pool/merkle.ts:87-94 | the fixed empty root is the padded root if and only if the depth is 20, or two steps of the zero chain collide |
| MerkleTheorems.ChainRepeats | packages/sdk/src/utils/constants.ts:104-107 | two equal values of the zero chain at different heights exhibit a SHA-256 collision |
| MerkleTheorems.FullTreeRoot | packages/sdk/src/pool/merkle.ts:137-160 | after the last of 2^depth leaves the stored root is the dense root of all of them |
| MerkleTheorems.StoredRootIsFold | packages/sdk/src/pool/merkle.ts:121-160 | for a last index with k trailing ones, the stored root is the dense root of the last 2^k leaves folded, as a proof is, along the zero hashes of heights k+1 to depth-1 with the bits of the index as directions |
| MerkleTheorems.StoredRootsAgreeIff | packages/sdk/src/pool/merkle.ts:121-160 | two trees of one size store the same root if and only if their last complete blocks have the same leaves, whatever comes before, or a named SHA-256 collision appears |
| MerkleTheorems.DenseBinds | packages/sdk/src/pool/merkle.ts:229-246 | the dense root of 32-byte leaves determines them, or two of its inner nodes collide |
| MerkleTheorems.MaxLeavesFillTheTree | packages/sdk/src/utils/constants.ts:18-24 | the bound on leaves is the size of a tree of the default depth |
| MerkleTheorems.ThreeLeavesDisagree | packages/sdk/src/pool/merkle.ts:147-158 | for every digest and any three leaves that are not all empty leaves, stored root and padded root differ at every depth from 3, or the tree exhibits a collision |
| MerkleTheorems.ThreeOnesDisagree | packages/sdk/src/pool/merkle.ts:147-158 | three concrete 32-byte leaves and a concrete 32-byte digest for which the two roots differ |
| MerkleTheorems.PathsBind | packages/sdk/src/pool/merkle.ts:295-319 | two paths with the same directions and siblings of any lengths that fold 32-byte leaves to one root have the same leaf and siblings, or one of their steps is a SHA-256 collision |
| MerkleTheorems.LeafLengthMatters | packages/sdk/src/pool/merkle.ts:295-319 | the 32-byte leaf is what binding needs: any verifying path also verifies for a shorter leaf, with the bytes cut off moved to its first sibling |
| Crypto.BigintToUint128BE | packages/sdk/src/utils/crypto.ts:102-116 | the byte loop fills the 16-byte big-endian numeral; negative numbers and numbers from 2^128 fail |
| Crypto.Uint128BEToBigint | packages/sdk/src/utils/crypto.ts:122-131 | reads the big-endian value; any length but 16 fails |
| Crypto.Uint128RoundTrip | packages/sdk/src/utils/crypto.ts:102-131 | encoding and decoding undo each other on every number in range and on every 16 bytes |
| Crypto.ConstantTimeEqual | packages/sdk/src/utils/crypto.ts:79-86 | accumulating xors decides equality of byte strings of any lengths |
| Digits.LeadingByteWeighsMost | packages/sdk/src/utils/crypto.ts:122-131 | byte strings read as numbers with the first byte weighing most |
| Digits.Truncated | packages/sdk/src/notes/note.ts:101-104 | a field of k bytes keeps a number modulo 256^k |
| Hex.CafeExample | packages/sdk/src/utils/crypto.ts:46-72 | the documented example in every form that is read, and two strings that are not |
| Hex.PrintsLowerCase | packages/sdk/src/utils/crypto.ts:52-54 | each byte prints as two digits, the high half first, never in capitals |
| Hex.PairsParseIff | packages/sdk/src/utils/crypto.ts:60-66 | strings of even length are read if and only if every character is a hexadecimal digit |
| Hex.HexRoundTrip | packages/sdk/src/utils/crypto.ts:52-72 | parsing a printed hex string gives the bytes back; printing never produces what looks like a 0x prefix |
| Notes.SerializeNote | packages/sdk/src/notes/note.ts:98-114 | the byte layout, or the amount's codec error |
| Notes.DeserializeNote | packages/sdk/src/notes/note.ts:123-165 | the running offset reads the same layout; any length but 148 fails |
| Notes.NoteRoundTrip | packages/sdk/src/notes/note.ts:98-165 | a note reads back as itself if and only if its leaf index is below 2^32 |
| Notes.BytesRoundTrip | packages/sdk/src/notes/note.ts:98-165 | every 148 bytes are the serialisation of the note they read as |
| Notes.NoteLayout | packages/sdk/src/notes/note.ts:98-114 | which of the 148 bytes hold which field; the leaf index modulo 2^32 |
| Backup.CreateBackupBundle | packages/sdk/src/notes/backup.ts:74-96 | header, metadata and payload in order, with a 16-bit version and a 32-bit length |
| Backup.ParseBackupBundle | packages/sdk/src/notes/backup.ts:108-157 | which bundles parse, to what, and which check fails first |
| Backup.ValidateBackupIntegrity | packages/sdk/src/notes/backup.ts:172-259 | the accumulated error list is empty exactly when the bundle parses, every field is valid and the checksum is that of the payload |
| Backup.FieldErrors | packages/sdk/src/notes/backup.ts:227-245 | a complaint exists exactly when some field is missing, of the wrong type or out of range |
| Backup.BundleRoundTrip | packages/sdk/src/notes/backup.ts:74-157 | a created bundle parses back into its payload and metadata |
| Backup.BundleHeader | packages/sdk/src/notes/backup.ts:48-96 | bundles made and bundles read start with the letters STBK and version 1 |
| Backup.ChecksumBinds | packages/sdk/src/notes/backup.ts:270-272 | payloads with equal checksums have equal digests, so an altered payload fails validation short of a collision |
| StoreFormat.SafeIntegersExact | packages/sdk/src/notes/store.ts:337-339 | timestamps below 2^53 survive the conversion to a double |
| StoreFormat.NumberOfIsNearest | packages/sdk/src/notes/store.ts:337-339 | other 64-bit timestamps become a nearest double, off by at most half a unit in the last place |
| StoreFormat.TiesGoToEven | packages/sdk/src/notes/store.ts:337-339 | a timestamp halfway between two doubles becomes the one with an even significand |
| StoreFormat.SignificantBits | packages/sdk/src/notes/store.ts:337-339 | doubles keep 53 significant bits, no more and no fewer |
| StoreFormat.RawId | packages/sdk/src/notes/store.ts:570-577 | an identifier made by save or import converts to 16 raw bytes and back to itself |
| StoreFormat.RawBytesOf | packages/sdk/src/notes/store.ts:570-577 | hex of any length becomes exactly the expected bytes: the last ones, or zeros in front |
| StoreFormat.RecordRoundTrip | packages/sdk/src/notes/store.ts:223-371 | one printed record followed by anything is read back, and exactly what followed is left over |
| StoreFormat.RecordsRoundTrip | packages/sdk/src/notes/store.ts:223-371 | any number of variable-length records read back in order without error |
| StoreFormat.PlaintextRoundTrip | packages/sdk/src/notes/store.ts:223-371 | a whole printed backup, with its header, parses into the entries printed |
| StoreFormat.PlaintextHeader | packages/sdk/src/notes/store.ts:230-235 | backups printed and backups read start with the letters STNT, version 1 and the count of records |
| StoreFormat.RecordShape | packages/sdk/src/notes/store.ts:237-258 | which bytes of a printed record hold which field |
| StoreFormat.RecordReprintsIff | packages/sdk/src/notes/store.ts:223-371 | printing a record that was read gives back its bytes if and only if the flag is 0 or 1 and the timestamp is exact as a double |
| StoreFormat.OnlyOneIsSpent | packages/sdk/src/notes/store.ts:330 | a flag byte means spent if and only if it is 1 |
| StoreFormat.MergeExtends | packages/sdk/src/notes/store.ts:353-368 | merging keeps every existing entry unchanged, knows exactly the ids of both sides, and grows by what it counts |
| StoreFormat.MergeIsIdempotent | packages/sdk/src/notes/store.ts:353-368 | merging the same records again changes nothing and counts 0 |
| StoreFormat.MergeDistinct | packages/sdk/src/notes/store.ts:353-368 | entries with distinct new ids are all added, each as it is |
| Store.NoteStore.Save | packages/sdk/src/notes/store.ts:124-142 | on a codec error nothing changes; otherwise exactly one entry is set, and a new id goes to the end of the order |
| Store.NoteStore.Load | packages/sdk/src/notes/store.ts:151-165 | missing, unauthentic or malformed entries fail; otherwise the decrypted note |
| Store.NoteStore.MarkSpent | packages/sdk/src/notes/store.ts:203-209 | sets one flag and nothing else, or fails on an unknown id |
| Store.NoteStore.Export | packages/sdk/src/notes/store.ts:223-268 | the chunks gathered in the loop are, once encrypted, the printed form of all entries in insertion order; nothing changes |
| Store.WriteMeta | packages/sdk/src/notes/store.ts:237-258 | a record's fixed part, written field by field at its offsets |
| Store.NextRecord | packages/sdk/src/notes/store.ts:323-351 | reading at an offset yields the record there and the offset of the rest, or says what is truncated |
| Store.NoteStore.Import | packages/sdk/src/notes/store.ts:280-371 | for every input: the new map is the merge of the records read before the first error; old entries are untouched, spent flags included; the size grows by the count of additions, even when the import fails midway |
| Store.NoteStore.ImportRecords | packages/sdk/src/notes/store.ts:323-371 | the moving-offset loop computes the merge of the recursive parse |
| Store.NoteStore.AddIfAbsent | packages/sdk/src/notes/store.ts:353-367 | an id already there keeps its entry and is not counted |
| Store.NoteStore.CountUnspent | packages/sdk/src/notes/store.ts:406-433 | counts the entries not marked spent |
| Store.UnspentAre | packages/sdk/src/notes/store.ts:412-418 | exactly the entries not marked spent are counted, each as often as it occurs |
| Store.NoteStore.SealBackup | packages/sdk/src/notes/store.ts:409-433 | after the awaited export: the bundle carries the bytes exported earlier with their checksum, but the counts of the store as it is by then; only the backup time changes |
| Store.NoteStore.ExportWithMetadata | packages/sdk/src/notes/store.ts:406-433 | with nothing in between: the bundle carries this store's export with its own counts and checksum |
| Store.ExportImport | packages/sdk/src/notes/store.ts:223-371 | importing an export into an empty store with the same key rebuilds the same map and returns its size |
| Store.BlobLayout | packages/sdk/src/notes/store.ts:260-267 | an export is initialisation vector, tag and ciphertext, in this order |
| Store.ImportTwice | packages/sdk/src/notes/store.ts:280-371 | a second import of the same bytes, even of a backup that fails midway, changes nothing and adds 0 |
| Store.SaveThenLoad | packages/sdk/src/notes/store.ts:124-165 | a saved note loads as itself, spent or not, if and only if its leaf index is below 2^32 |
| Store.Open | packages/sdk/src/notes/store.ts:105-113 | keys of other lengths than 32 are refused; otherwise a new store, empty and consistent |
| Store.ImportWithValidation | packages/sdk/src/notes/store.ts:446-494 | succeeds exactly on intact bundles with a 32-byte key and a payload that parses to the end; the new store holds the merge of its records, and the warnings are the mismatches |
| Store.BundleRestores | packages/sdk/src/notes/store.ts:406-494 | the bundle restores the notes as they were when the export printed them, with the same metadata, and warns if and only if the store's size had changed when the metadata was made |
| Store.WarningsIff | packages/sdk/src/notes/store.ts:462-491 | a restore warns of the version if and only if it is not 0.1.0, and of the count if and only if it differs |
| ModArith.Euclid | prover/src/rescue.rs:188-250 | a prime that divides a product divides a factor: the group-theoretic ground of the cube root |
| ModArith.ScaledProduct | prover/src/rescue.rs:188-250 | scaling every element of a set of units multiplies their product by a power of the scalar, and keeps the number of elements |
| ModArith.Fermat | prover/src/rescue.rs:188-250 | a^(p-1) = 1 modulo any prime p, for every unit a, which the source invokes by name |
| Rescue.FieldConstants | prover/src/rescue.rs:188-250 | the written exponent e satisfies 3e = 2(p - 1) + 1 and e < p - 1; the inverse of 4 is as used |
| Rescue.PowU128 | prover/src/rescue.rs:254-272 | square-and-multiply computes the power, for every base and 128-bit exponent |
| Rescue.CubeRoot | prover/src/rescue.rs:188-251 | computes the e-th power, zero included |
| Rescue.CubeRootInverts | prover/src/rescue.rs:94-251 | cubing and cube roots are inverse bijections of the field |
| Rescue.ApplyMds | prover/src/rescue.rs:83-91 | the in-place double loop multiplies the old state by the matrix |
| Rescue.ApplySbox | prover/src/rescue.rs:94-98 | cubes all three elements in place |
| Rescue.ApplyInvSbox | prover/src/rescue.rs:149-169 | takes cube roots of all three elements in place |
| Rescue.MdsUndone | prover/src/rescue.rs:58-91 | the matrix has a left inverse modulo p |
| Rescue.MdsRedone | prover/src/rescue.rs:58-91 | the same inverse is a right inverse |
| Rescue.RescuePermutation | prover/src/rescue.rs:275-293 | seven rounds of two half-rounds, in place |
| Rescue.RoundInverts | prover/src/rescue.rs:277-292 | each round, with its constants, is undone by its inverse on both sides |
| Rescue.PermutationIsBijective | prover/src/rescue.rs:275-293 | an explicit inverse undoes the permutation, and is undone by it, on every triple of field elements |
| Rescue.Hash | prover/src/rescue.rs:301-305 | the first element of the permuted state (a, b, 0) |
| RescueVectors.KnownAnswer | prover/src/rescue.rs:275-305 | the permuted state of (1, 2, 0) and the hash of 1 and 2 as numbers, with both states of each of the seven rounds: what is computed, not only that it can be undone |
| Air.TraceLengthIsLeast | prover/src/air.rs:83-89 | the least power of two with room for depth + 1 rows and for 8 |
| Air.DepthMetadata | prover/src/air.rs:124-129 | the depth survives its four little-endian bytes exactly when it is below 2^32 |
| Air.HashChain | prover/src/prover_impl.rs:71-90 | the accumulating loop lists the running hashes of the path, leaf first |
| Air.BuildTrace | prover/src/prover_impl.rs:57-133 | filling by mutating closures gives one active row per level, then the root repeated with zero siblings and bits |
| Air.TraceWalksPath | prover/src/air.rs:6-22 | on the trace itself: rows hold their level's sibling and bit, each active hash with its sibling on the side of the bit hashes to the next row's, and the rest repeat the last |
| Air.MetadataBytes | prover/src/prover_impl.rs:61-62 | the depth is stored with its lowest byte first |
| Air.LastActiveRow | prover/src/air.rs:204-215 | the decoded depth names a row inside the trace that holds the folded path |
| Air.BitConstraint | prover/src/air.rs:186-202 | over a prime field bit * (1 - bit) vanishes exactly at 0 and 1 |
| Air.TransitionsIff | prover/src/air.rs:186-202 | a built trace meets the transition constraint on all rows exactly when all path bits are 0 or 1 |
| Air.BuiltTraceSatisfiesIff | prover/src/prover_impl.rs:57-133 | at every depth, a built trace satisfies constraint and assertions if and only if the bits are binary, the public commitment is the leaf and the public root is the folded path |
| Air.EveryInputIsSatisfied | prover/src/air.rs:186-215 | whatever the public inputs, an eight-row trace without any path satisfies the constraint and both assertions |
| ProofCodec.SerializeProof | packages/sdk/src/proof/prover.ts:273-317 | for hashes and elements of any lengths: parts are written 32 bytes apart, later ones over earlier ones, the first write beyond 2048 bytes fails, and index bits beyond the end are dropped |
| ProofCodec.SerialisedIsEncoded | packages/sdk/src/proof/prover.ts:273-317 | with 32-byte hashes the result is header, elements and packed indices, then zeros; paths of more than 60 elements fail |
| ProofCodec.WriteIndices | packages/sdk/src/proof/prover.ts:304-314 | sets one bit per index equal to 1, over whatever the buffer holds, and ignores those beyond its end |
| ProofCodec.BitsArePacked | packages/sdk/src/proof/prover.ts:304-314 | over zeros, setting bits one at a time writes the packed form and touches no other byte |
| ProofCodec.PackOne | packages/sdk/src/proof/prover.ts:304-314 | setting bit i extends the packing of i indices to i + 1, in its byte and no other |
| ProofCodec.PackedBit | packages/sdk/src/proof/prover.ts:381-388 | the unpacking expression reads, at every position, the bit that packing wrote |
| ProofCodec.DeserializeProof | packages/sdk/src/proof/prover.ts:327-402 | which buffers are accepted, and the fields read from them |
| ProofCodec.DecodesIff | packages/sdk/src/proof/prover.ts:327-372 | exactly buffers of version 1 with 1 to 20 levels, long enough for them, are accepted |
| ProofCodec.HeaderFields | packages/sdk/src/proof/prover.ts:278-296 | which of the 98 header bytes hold version, nullifier hash, challenge, response and path length |
| ProofCodec.DecodeEncoded | packages/sdk/src/proof/prover.ts:273-402 | deserialising a serialised proof of 1 to 20 levels gives it back, except for the commitment, which is zero |
| ProofCodec.EncodeDecodedIff | packages/sdk/src/proof/prover.ts:273-402 | serialising an accepted buffer's content gives the buffer back if and only if it is 2048 bytes long with zero padding bits and a zero tail |
| Pipeline.ValidationIff | packages/sdk/src/proof/circuit.ts:140-247 | the validators accept exactly the well-formed inputs, stated without an order of checks |
| Pipeline.ErrorsAreJustified | packages/sdk/src/proof/circuit.ts:176-247 | an error of the private validator names a check that fails, and for list entries the first one that does |
| Pipeline.PublicErrorsAreJustified | packages/sdk/src/proof/circuit.ts:140-170 | the same for public inputs |
| Pipeline.GenerateWitness | packages/sdk/src/proof/witness.ts:88-173 | succeeds exactly when shapes, amount, nullifier hash and Merkle path all hold; otherwise names the first failing check; the witness records every running hash |
| Pipeline.WalkPath | packages/sdk/src/proof/witness.ts:131-150 | the loop's hashes are the prefixes of the verifier's fold |
| Pipeline.GenerateHashBasedProof | packages/sdk/src/proof/prover.ts:184-231 | the proof is the encoding of the challenge, response and path; it fails exactly when the fee does not fit 128 bits |
| Pipeline.VerifyProofLocally | packages/sdk/src/proof/prover.ts:424-460 | accepts exactly buffers that decode, carry the nullifier hash and the recomputed challenge, have 19 levels and a non-zero response |
| Pipeline.PipelineCompletes | packages/sdk/src/proof/prover.ts:184-460 | a proof made from any witness is accepted for its public inputs if and only if the response hash is not zero |
| Pipeline.TranscriptParses | packages/sdk/src/proof/prover.ts:241-253 | after the nullifier hash, the transcript splits into root, recipient and fee in one way only |
| Pipeline.ProofBindsPublicInputs | packages/sdk/src/proof/prover.ts:241-460 | a proof accepted for two public inputs forces equal nullifier hash, root, recipient bytes and fee, or their transcripts are a SHA-256 collision |
| Pipeline.TreeProofMakesWitness | packages/sdk/src/proof/witness.ts:88-173 | for a leaf's own generated path, the witness statement holds if and only if the public root is the padded root of the tree |
| Pipeline.StoredRootMakesWitness | packages/sdk/src/proof/witness.ts:88-173 | at powers of two, the tree's stored root is a public root for which the statement holds |
| Pipeline.StatementMeansMembership | packages/sdk/src/proof/witness.ts:88-173 | if the witness statement holds for a tree's padded root, the commitment is that tree's leaf at the position the path indices spell, or a step of the path collides with the tree |
| Pipeline.OneNullifierPerLeaf | packages/sdk/src/proof/witness.ts:88-173 | two statements that hold for one root and one position have the same secret, nullifier, amount and nullifier hash, or a SHA-256 collision on the commitments or the paths |
| Pipeline.CommitmentBinds | packages/sdk/src/proof/witness.ts:101-107 | a commitment determines secret, nullifier and amount, or the two preimages collide |
| Pipeline.CommitmentPreimage | packages/sdk/src/proof/witness.ts:101-107 | the commitment hashes the 80 bytes that read as secret, nullifier and amount |
| Pipeline.ChallengePreimage | packages/sdk/src/proof/prover.ts:241-253 | the challenge hashes the bytes that read as nullifier hash, root, recipient and fee |
| Pipeline.ResponsePreimage | packages/sdk/src/proof/prover.ts:198-210 | the response hashes the 68 bytes that read as challenge, secret and leaf index |
| Pipeline.ResponseBinds | packages/sdk/src/proof/prover.ts:198-210 | a response determines challenge, secret and leaf index, or two preimages collide |
| Pipeline.LeafIndexIsFree | packages/sdk/src/proof/witness.ts:88-173 | the statement does not tie the leaf index to the path: it holds with an index if and only if it holds with any other in range |
| Pipeline.PathIsNotChecked | packages/sdk/src/proof/prover.ts:404-460 | replacing all path elements of any buffer by arbitrary bytes does not change the verdict of local verification |
| Pipeline.AcceptedPathMayMiss | packages/sdk/src/proof/prover.ts:404-460 | of an accepted buffer and the one with another top sibling, both accepted, at most one leads from any 32-byte leaf to the root, or their paths collide |
| Pipeline.AcceptanceNeedsNoWitness | packages/sdk/src/proof/prover.ts:424-460 | for every 32-byte nullifier hash and fee below 2^128, a buffer made without a witness is accepted |
| C32.C32Encode | packages/sdk/src/wallet/stealth-address.ts:401-433 | the dividing loop, digit reversal and zero count yield one '0' per leading zero byte and then the base-32 numeral |
| C32.ExtractDigits | packages/sdk/src/wallet/stealth-address.ts:414-422 | remainders collected least significant first, reversed, are the base-32 numeral without leading zeros |
| C32.DecodeEncoding | packages/sdk/src/wallet/stealth-address.ts:401-433 | a decoder gives back every byte string, leading and all-zero bytes included |
| C32.EncodingSpells | packages/sdk/src/wallet/stealth-address.ts:401-433 | an encoding spells, in base 32, the number that the bytes are |
| C32.AlphabetIs | packages/sdk/src/wallet/stealth-address.ts:364 | the alphabet is the digits and the capital letters in order without I, L, O and U |
| C32.C32CheckEncode | packages/sdk/src/wallet/stealth-address.ts:372-392 | prefix, version character, then the encoding of data and four checksum bytes |
| C32.C32CheckInjective | packages/scanner/src/stealth-detector.ts:215-270 | an address determines its version and payload |
| C32.C32CheckDecodes | packages/sdk/src/wallet/stealth-address.ts:372-392 | an address reads back as S, the version's character, the payload, and four bytes of the double SHA-256 of version and payload |
| Groups.MulMul | packages/sdk/src/wallet/stealth-address.ts:74-107 | scalars applied one after the other multiply, by induction from the group laws |
| Groups.MulCommutes | packages/sdk/src/wallet/stealth-address.ts:84-86 | two scalars can be applied to a point in either order |
| Groups.MulReduces | packages/sdk/src/wallet/stealth-address.ts:145-151 | scalars of the generator may be reduced modulo the group order |
| Groups.MulIsZeroIff | packages/sdk/src/wallet/stealth-address.ts:88-95 | a multiple of the generator is the identity exactly when the order divides the scalar |
| Groups.MulAgreesIff | packages/sdk/src/wallet/stealth-address.ts:145-151 | multiples of the generator are equal exactly when their scalars are equal modulo the order |
| Stealth.PrivKeyOpens | packages/sdk/src/wallet/stealth-address.ts:211-217 | unless the sum of spending key and scalar is 0 modulo n, the reduced 32-byte sum is a valid key and its public key is the stealth public key; if it is 0, neither exists |
| Stealth.SecretsAgree | packages/sdk/src/wallet/stealth-address.ts:84-86 | the sender's and the recipient's shared secrets exist and are equal, for all valid keys |
| Stealth.SenderRecipientAgree | packages/sdk/src/wallet/stealth-address.ts:74-226 | the derivation succeeds if and only if spending key plus scalar is not 0 modulo n; then the recipient's check matches with the same address and public key, and the recovered key's public key is that one; otherwise the check fails for every target |
| Stealth.StealthKeyIsTweaked | packages/sdk/src/wallet/stealth-address.ts:74-226 | the one-time public key is (spending key + digest of the shared secret) * G, and the recovered private key is that sum modulo n; a digest of 0 modulo n counts as 1 |
| Stealth.StealthKeysAgreeIff | packages/sdk/src/wallet/stealth-address.ts:74-107 | two ephemeral keys give the same one-time key if and only if the digests of their shared secrets agree modulo n |
| Stealth.AddressSpells | packages/sdk/src/wallet/stealth-address.ts:298-362 | mainnet addresses start with SP and others with ST, and the rest decodes to RIPEMD-160 of SHA-256 of the key and its checksum |
| Stealth.SelfStealthAgrees | packages/sdk/src/wallet/stealth-address.ts:121-163 | self-deposit succeeds under the same condition, and is then the sender's derivation on one's own meta-address, with the private key the check recovers |
| Stealth.MatchIsSpendable | packages/sdk/src/wallet/stealth-address.ts:180-226 | any match, for any ephemeral key and target, yields a valid private key whose public key the target address was made from |
| Stealth.IdentityIsReachable | packages/sdk/src/wallet/stealth-address.ts:94-97 | for every view key and ephemeral key, one spending key makes the derivation fail |
| Stealth.ScannerAgreesWithCheck | packages/scanner/src/stealth-detector.ts:87-138 | the scanner detects exactly the 33-byte events that the wallet's check matches, with the same keys, and reports the amount net of the fee |
| Stealth.ScannerFindsPayment | packages/scanner/src/stealth-detector.ts:87-138 | the owner's scanner, on a network with the same version byte, detects the payment if and only if it could be made |
| Stealth.ScanEvents | packages/scanner/src/stealth-detector.ts:148-161 | collects the detections of a batch in order |
| Stealth.DetectedConcat | packages/scanner/src/stealth-detector.ts:148-161 | how events are cut into batches neither loses nor invents a payment |
| Queue.TransactionQueue.constructor | packages/relay/src/queue.ts:83-87 | restores the persisted items, or starts empty |
| Queue.TransactionQueue.Persist | packages/relay/src/queue.ts:183-193 | the file afterwards: the items, the old content, or an unreadable remnant if the write failed after truncating it |
| Queue.TransactionQueue.Enqueue | packages/relay/src/queue.ts:94-107 | appends one pending item, and what the file then holds |
| Queue.TransactionQueue.PeekNext | packages/relay/src/queue.ts:110-112 | the first pending item, left in place |
| Queue.TransactionQueue.Mark | packages/relay/src/queue.ts:115-142 | overwrites the first item with the id; for an unknown id neither items nor file change |
| Queue.TransactionQueue.MarkConfirmed | packages/relay/src/queue.ts:126-132 | sets one status and nothing else, and what the file then holds |
| Queue.TransactionQueue.GetStatus | packages/relay/src/queue.ts:145-147 | the first item with the id, if there is one |
| Queue.TransactionQueue.GetPendingCount | packages/relay/src/queue.ts:150-159 | the pending items by kind |
| QueueRuns.EnqueueCounts | packages/relay/src/queue.ts:150-159 | an enqueued item raises the count of its own kind by one and the other's not at all |
| QueueRuns.PendingsAddUp | packages/relay/src/queue.ts:150-159 | the two counts together are the length of the pending suffix |
| Queue.Relay.constructor | packages/relay/src/queue.ts:195-206 | a start is the machine's restart step: items from the file, nothing in flight |
| Queue.Relay.Enqueue | packages/relay/src/queue.ts:94-107 | is the machine's enqueue step on items, file and history, also while a submission is under way |
| Queue.Relay.Begin | packages/relay/src/index.ts:85-91 | is the machine's begin step: picks the first pending item unless a submission is under way |
| Queue.Relay.Finish | packages/relay/src/index.ts:93-118 | is the machine's finish step for every outcome and every result of the write, and always clears the flag |
| QueueRuns.GoodSettle | packages/relay/src/queue.ts:115-142 | settling the first pending item changes only it and moves the boundary between finished and pending by one |
| QueueRuns.RunsKeepInv | packages/relay/src/index.ts:85-118 | one invariant relates items, file, submission in flight and history after every run of enqueues, submissions, outcomes, refused and torn writes, and restarts |
| QueueRuns.FinishedThenPending | packages/relay/src/queue.ts:94-142 | in every run the items are a finished prefix, all of it submitted, and then a pending suffix |
| QueueRuns.ItemsWereEnqueued | packages/relay/src/queue.ts:94-107 | in every run, each item in memory and on file is one that was enqueued, with that id, kind, payload and time |
| QueueRuns.EnqueuedAreKept | packages/relay/src/queue.ts:94-107 | nothing enqueued is dropped until the process restarts, and never while every change is written |
| QueueRuns.InOrderOnce | packages/relay/src/index.ts:85-118 | until the process restarts, the submissions are the ids of a prefix of the queue, in order and without repeats, whatever writes fail |
| QueueRuns.WrittenRunsStayInOrder | packages/relay/src/index.ts:85-118 | as long as every change was written, submissions follow enqueue order across restarts too, and never pass the first pending item |
| QueueRuns.LossesBoundRepeats | packages/relay/src/queue.ts:183-206 | in every run, submissions number at most the distinct items submitted plus the restarts plus the changes that were not written |
| QueueRuns.RestartRestoresIff | packages/relay/src/queue.ts:183-206 | after every run, a restart brings back exactly the queue as it was if and only if its last change was written |
| QueueRuns.OutcomeGoesToSubmitted | packages/relay/src/index.ts:93-118 | in every run, an outcome lands on the pending item that was submitted, and changes no other |
| QueueRuns.OutcomesAreFinal | packages/relay/src/queue.ts:115-142 | an outcome on file never changes again, in memory or on file, whatever refused writes and restarts follow, unless a write tears the file |
| QueueRuns.UnwrittenOutcomeReverts | packages/relay/src/queue.ts:183-206 | an outcome whose write failed is undone by a restart: wherever the item comes back, it is pending |
| Token.SbtcToken.TransferTokens | contracts/sbtc-token.clar:32-49 | the authorisation, the allowance deduction before the move, and the rollback when the move fails |
| Token.SbtcToken.MintTo | contracts/sbtc-token.clar:99-104 | only the owner mints; what overflows or is zero fails |
| Token.SbtcToken.ApproveSpender | contracts/sbtc-token.clar:77-82 | sets one allowance |
| Token.MovesConserve | contracts/sbtc-token.clar:45 | a token movement, whether it succeeds or not, keeps the sum of balances |
| Token.RunConserves | contracts/sbtc-token.clar:32-105 | over every run of calls by anyone, the balances sum to the supply and none exceeds it |
| Token.TransfersDoNotOverflow | contracts/sbtc-token.clar:32-49 | in a conserving ledger no transfer reaches the overflow |
| Token.TransferSucceedsIff | contracts/sbtc-token.clar:32-49 | in a conserving ledger a transfer succeeds if and only if it is authorised, its amount is positive and covered, and the two parties differ |
| Token.MintSucceedsIff | contracts/sbtc-token.clar:99-104 | in a conserving ledger a mint succeeds if and only if the owner calls it, its amount is positive and the supply stays below 2^128 |
| Token.RefusedIff | contracts/sbtc-token.clar:32-104 | exactly mints by others and third-party transfers beyond the allowance are refused as not authorised |
| Token.SupplyIsMinted | contracts/sbtc-token.clar:99-104 | over every run the supply grows by the owner's successful mints and by nothing else |
| Token.OnlyTheOwnerMints | contracts/sbtc-token.clar:99-104 | a run without a mint by the owner leaves the supply as it was |
| Token.BooksBalance | contracts/sbtc-token.clar:32-105 | over every run, each account ends with what it had plus what it received minus what it sent, by the calls that succeeded |
| Token.DebitsAreAuthorised | contracts/sbtc-token.clar:32-49 | a balance falls only by a transfer from it, by its amount, made by its owner, by it as the calling contract, or on a sufficient allowance |
| Token.FailureChangesNothing | contracts/sbtc-token.clar:32-105 | a failing call leaves the ledger as it was |
| Token.AllowanceStep | contracts/sbtc-token.clar:34-45 | an allowance falls by exactly what is moved on it, and changes otherwise only by its own approval |
| Token.AllowanceBudget | contracts/sbtc-token.clar:32-82 | over every run, a spender moves at most the initial allowance plus all approvals, and without approvals what is moved and what is left sum to it |
| Failover.SortKeeps | packages/sdk/src/relayer/discovery.ts:301-309 | the ranking is a permutation of the relayers, sorted by fee and then latency |
| Failover.SortStable | packages/sdk/src/relayer/discovery.ts:301-309 | relayers that tie keep their registration order |
| Failover.SortIsUnique | packages/sdk/src/relayer/discovery.ts:301-309 | the ranking is the only sorted permutation that keeps ties in order, so every stable sort by the comparator computes it |
| Failover.HealthyKeeps | packages/sdk/src/relayer/discovery.ts:301-303 | filtering keeps every healthy relayer as often as it was there, and no other |
| Failover.NormalisedUrlIs | packages/sdk/src/relayer/discovery.ts:316-318 | one trailing slash is dropped, and only one |
| Failover.UnprobedAreNotRanked | packages/sdk/src/relayer/discovery.ts:73-93 | a registry that was never probed ranks nothing |
| Failover.RefreshIs | packages/sdk/src/relayer/discovery.ts:151-169 | what becomes of an entry whose probe completes, rejects, or is left alone for having been checked within five minutes |
| Failover.RelayerRegistry.constructor | packages/sdk/src/relayer/discovery.ts:73-93 | one unprobed entry per normalised url |
| Failover.RelayerRegistry.Refresh | packages/sdk/src/relayer/discovery.ts:151-169 | every entry, or every stale one, becomes its probe's result; order and urls stay |
| Failover.RelayerRegistry.GetHealthyFromCache | packages/sdk/src/relayer/discovery.ts:301-309 | exactly the healthy relayers, each url once, of any two the one with the lower fee first, and of equal fees the one with the lower latency |
| Failover.TryWithFailover | packages/sdk/src/relayer/failover-client.ts:146-178 | calls a prefix of the ranking of at most maxRetries relayers, three if unset; succeeds if and only if one of those would, with the first that does; otherwise calls all of them, or all there are, and records exactly their errors |
| Failover.Submit | packages/sdk/src/relayer/failover-client.ts:146-178 | a submission through a freshly probed registry goes to the healthy relayers in rank order |

## Left out

- Inserting into and proving in a tree of depth 0 or above 20: the source then reads undefined entries of its tables.
- The literal table of zero hashes and the empty-root literal: their hexadecimal values are SHA-256 outputs, taken to be
  the chain that their comments define.
- Proofs in a tree of more than 2^(depth-1) leaves: the path is one level short of the index, so no root is claimed for them.
- Soundness of the STARK, and Winterfell: a satisfying trace need not come from a path (Air.EveryInputIsSatisfied).
- The choice between the WebAssembly prover and the hash-based one, and WebAssembly marshalling.
- The scanner's own copies of the c32 and scalar helpers: they are the wallet's code again, so one model serves both.
- Store.NoteStore.constructor: takes a 32-byte key; the exception on others is the error of Store.Open.
- StoreFormat.PlaintextRoundTrip: up to 2^32 - 1 records, ciphertexts below 2^32 bytes and timestamps that are exact doubles,
  the widths of the format's fields.
- Listing all unspent notes with decryption, the store's backup-age text, and JSON's treatment of `null` and other
  documents that are not objects.
- Ill-formed UTF-16 strings: the UTF-8 encoder is any function, and equality of recipients is equality of their bytes.
- The queue's confirmation step and last submission time in runs; rate limits, routes and logging of the relay.
- Adding and removing relayers at run time, the best-relayer query, and the HTTP probe, whose result is a parameter.
- Failover.TryWithFailover: retry limits are whole numbers or absent.
- Token memo printing and metadata getters.
- The pool, escrow, nullifier-registry, proof-verifier and stealth contracts: their Clarity sources are not part of this model.
- Web pages, HTTP clients, the scanner's polling and parsing of chain events, notifiers, privacy score, timing and fee
  heuristics: short clamped arithmetic or input and output.
