# lys: the transparency log, from disk to third-party verdict

This project models and proves the behaviour of the `lys` trust tools:

- the RFC 6962 Merkle log, its inclusion and consistency proofs, and the index-walking
  verifiers (`Merkle*.dfy`, `Tree.dfy`);
- the proof artifacts that tie proofs to signed checkpoints (`ProofText.dfy`, `Artifacts.dfy`,
  `ArtifactBuilder.dfy`);
- the log directory with its crash recovery (`LeafFiles.dfy`, `LogDisk.dfy`, `LogStore.dfy`,
  `LogRuns.dfy`, `LogGuarantees.dfy`, `LogReuse.dfy`, `LogDriver.dfy`);
- signed notes, checkpoint bodies and verifier keys (`Names.dfy`, `Checkpoint.dfy`,
  `NoteGrammar.dfy`, `NoteBijection.dfy`, `SignedNote.dfy`);
- the canonical COSE attestation over a general CBOR decoder (`Cbor.dfy`, `Attestation.dfy`,
  `AttestationWriter.dfy`);
- the race to create an identity key (`KeyCreation*.dfy`);
- PEM framing (`Pem.dfy`, `PemTolerance.dfy`), and the text encodings they share (`Utf8.dfy`,
  `Unicode.dfy`, `Text.dfy`, `Base64.dfy`, `Decimal.dfy`, `BigEndian.dfy`, `Division.dfy`).

`dafny verify dfyconfig.toml` checks everything.

## How it is modelled

- SHA-256 is a parameter: any function from bytes to 32 bytes. Nothing is assumed of it. Where
  a result rests on the hash, its conclusion holds or two different inputs have the same hash,
  and both are among the finitely many inputs hashed for the lists and proofs at hand
  (`CollidesAmong`, with the sets of `MerkleInputs.dfy`). A collision anywhere would say
  nothing, since some always exists.
- Ed25519 is a parameter too (`Signing.Scheme`). The only law used is that a signature verifies
  under its signer's key, and it is a hypothesis of the results that need it.
- Text is its UTF-8 octets. "Control character below 0x20" and every delimiter are the same
  test on octets as on characters; white space is the Unicode White_Space property.
  `Unicode.dfy` proves these tests against code points.
- Every encoding is also given position by position (digits, base64 symbols, CBOR heads), and
  every fixed text octet by octet, apart from the functions that compute them.
- The tree arithmetic is a library of the source; its proof methods are documented as
  `PATH(m, D[n])` and `PROOF(m, D[n])`, so the tree is RFC 6962's and the verifiers are the
  loops of section 2.1.3.2 and section 2.1.4.2 of RFC 9162, with the library's rule for trees
  of equal size (empty path, equal roots).
- A log command is a list of file operations. A crash ends it after any number of them, or
  inside a write: a prefix of the bytes of a leaf, or a torn JSON file, stays behind. Rename
  is atomic. A store is dropped after a failed append.
- In the key race every file operation of every thread is one step that may fail, over a file
  system with inodes. The existence check may miss a key that is there. Process ids of live
  processes differ; an id may be reused after a crash.

Where the code and its documentation disagree, the code is modelled:

- `sign_note` is documented to emit only notes that re-verify. It checks the body for control
  characters but not the key name; a name such as "a" followed by U+0001 signs and never
  verifies. `SignThenVerify` gives the exact condition, `ControlNameSignsButNeverVerifies` the
  instance.
- The consistency-proof cap is explained by "~2×53 nodes"; the exact bound below 2^53 leaves is
  54 (`ProofSizeBound`, `ProofSizeReached`).
- `load_or_generate` is documented safe under any race. Its existence check reports every error
  as "absent" (`crates/lys-core/src/keys/identity.rs:142-148`); if that happens in a process
  whose reused id has a leftover temp name on the key's inode, the key can be emptied
  (`MissedCheckEmptiesKey`). `OneKeyForever` holds of a run if and only if no temp file is
  opened under a second name of the key. `SafeClaimsAreCareful`, `SafeMissesAreCareful` and
  `CleanStartsAreCareful` give conditions at the claim, at the check (in particular: no check
  misses) and at process start that guarantee it.
- `init` writes `log.json` first and `state.json` last. A crash in between leaves a directory
  that never opens and is never re-initialized (`InitAllOrUnusable`).

## Main results

1. `IncludedStaysIncluded`, `ConsistencyArtifactSound`, `InclusionArtifactExact`,
   `ConsistencyArtifactExact`: what a third party learns from accepted artifacts, down to the
   signature that verifies over the checkpoint's body (`VerifyCheckpointExact`).
2. `PinnedForever`, `AnyPinnedSizeIsProvable`: over every run of opens, appends and crashes,
   whatever was pinned once stays a provable prefix.
   `Drive`, `ProgramIsRun`: every program of calls to the store's methods is such a run.
3. `CrashRecovery`, `OpenIsTamperEvident`: recovery from a crash at any step, and detection of
   tampering. `ReuseExact`, `NextAppendSafe`: exactly when a store that kept failing has lost
   the log, and exactly when its next append is safe.
4. `OneKeyForever`, `OnlyOwnFailures`, `NoTempFileLeft`: the key race in every interleaving,
   with the exact condition for one key for good.
5. `FromCoseExact`, `VerifyBytesExact`, `SignedBytesDetermineFields`: the attestation parser
   accepts exactly the encoder's image, verification exactly what is validly signed, and a
   signature fixes every field.
6. `ParseRender`, `RenderParse`, `VerifyNoteExact`, `VerdictUnderInsertion`: the note grammar is
   unambiguous and the first line of a signer decides.

## Model

| member | source | states |
|---|---|---|
| Merkle.Split | crates/lys-core/src/merkle/proof.rs:120 | the split point of RFC 6962 is the largest power of two strictly below the size |
| Merkle.SplitUnique | crates/lys-core/src/merkle/proof.rs:120 | no other power of two k satisfies k < n <= 2k |
| Merkle.SmallTrees | crates/lys-core/src/merkle/tree.rs:197-219 | roots, audit paths and consistency proofs of trees up to three leaves, written out on hash inputs with the 0x00 and 0x01 prefixes |
| MerkleRecursion.ClimbPromote | crates/lys-core/src/merkle/proof.rs:227-239 | a lone last node passes unchanged to the next level: the recomputed roots are the same one level up |
| MerkleRecursion.ClimbRight | crates/lys-core/src/merkle/proof.rs:227-239 | a right child joins the first path node from the right in both trees, one level up |
| MerkleRecursion.ClimbLeft | crates/lys-core/src/merkle/proof.rs:227-239 | a left child with a sibling joins it in the newer tree only, one level up |
| MerkleRecursion.RootsHalve | crates/lys-core/src/merkle/proof.rs:251-262 | with an even older size both trees of a consistency proof may be viewed one level up |
| MerkleRecursion.RootsClimb | crates/lys-core/src/merkle/proof.rs:251-262 | with an odd older size the first proof node is the last node of the older level |
| MerkleTrace.InputsPromote | crates/lys-core/src/merkle/proof.rs:227-239 | promoting a lone last node hashes nothing |
| MerkleTrace.InputsUp | crates/lys-core/src/merkle/proof.rs:227-239 | a node with a sibling adds exactly the input of its parent, in the order its index bit says, and the rest is the parent's own way up |
| MerkleTrace.InclusionTrace | crates/lys-core/src/merkle/proof.rs:227-239 | the inputs of a recomputed root are the prefixed leaf and those on the way up from its hash |
| MerkleTrace.RootsInputsHalve | crates/lys-core/src/merkle/proof.rs:251-262 | with an even older size the inputs for the newer root are the same one level up |
| MerkleTrace.RootsTrace | crates/lys-core/src/merkle/proof.rs:251-262 | with an odd older size they are those on the way up from the first proof node |
| MerkleVerify.SkipPromoted | crates/lys-core/src/merkle/proof.rs:227-239 | the inner shifting loop reaches the next right child without changing the recomputed roots or the inputs to hash |
| MerkleVerify.SkipComplete | crates/lys-core/src/merkle/proof.rs:251-262 | the initial shifting loop reaches the level of the largest complete subtree that ends the older tree, with the same roots and inputs |
| MerkleVerify.VerifyInclusion | crates/lys-core/src/merkle/proof.rs:227-239 | the bottom-up index-walking loop accepts exactly when the top-down recomputation yields the root, for every index, size and path, and then has hashed exactly the inputs of that recomputation |
| MerkleVerify.VerifyRoots | crates/lys-core/src/merkle/proof.rs:251-262 | the main consistency loop accepts exactly when both recomputed roots are the supplied ones, and then has hashed exactly the recorded inputs on the way to the newer one |
| MerkleVerify.VerifyConsistency | crates/lys-core/src/merkle/proof.rs:251-262 | the consistency verifier, with its guards for empty, larger and equal trees, agrees with the top-down recomputation, also in what it hashes for the newer root |
| MerkleSoundness.RootCollision | crates/lys-core/src/merkle/leaf.rs:130-135 | two different leaf lists with one root, even of different sizes, yield an input of the first tree and one of the second that differ and hash alike |
| MerkleSoundness.PathRecomputesRoot | crates/lys-core/src/merkle/tree.rs:109-122 | the audit path of every leaf of every tree recomputes the root |
| MerkleSoundness.InclusionCollision | crates/lys-core/src/merkle/proof.rs:227-239 | an accepted leaf or path that is not the tree's own yields an input of the verifier and one of the tree that differ and hash alike |
| MerkleSoundness.InclusionExact | crates/lys-core/src/merkle/proof.rs:227-239 | against a tree's root exactly the leaf at the index with its audit path is accepted, or an input hashed by the verifier collides with one hashed by the tree |
| MerkleSoundness.SubProofRecomputesRoots | crates/lys-core/src/merkle/tree.rs:135-172 | the consistency proof of every prefix recomputes the roots of the prefix and of the tree |
| MerkleSoundness.ProofSeeded | crates/lys-core/src/merkle/proof.rs:162 | PROOF omits its first node exactly when the older size is a power of two, and the verifier puts it back |
| MerkleSoundness.ProofAccepted | crates/lys-core/src/merkle/tree.rs:135-172 | every proof made for a proper non-empty prefix is accepted |
| MerkleSoundness.RootsCollision | crates/lys-core/src/merkle/proof.rs:251-262 | a path that recomputes the newer root with a wrong older root or wrong nodes yields an input of the verifier and one of the newer tree that differ and hash alike |
| MerkleSoundness.PrefixCollision | crates/lys-core/src/merkle/proof.rs:241-262 | accepted roots of two lists of which the first is not a prefix of the second yield a collision among the inputs of the first list and the verifier and those of the second list and its prefix |
| MerkleSoundness.ConsistencyExact | crates/lys-core/src/merkle/proof.rs:251-262 | between a list and its prefix only PROOF is accepted, or an input hashed by the verifier collides with one hashed by the tree |
| MerkleSize.PathLength | crates/lys-core/src/tlog/verify.rs:32-34 | an audit path in a tree of at most 2^e leaves has at most e nodes |
| MerkleSize.SubProofLength | crates/lys-core/src/tlog/verify.rs:36-38 | a consistency proof in a tree of at most 2^e leaves has at most e + 1 nodes |
| MerkleSize.ProofSizeBound | crates/lys-core/src/tlog/verify.rs:32-38 | below 2^53 leaves: at most 53 and 54 nodes, so the 64 and 128 caps reject no honest artifact |
| MerkleSize.ProofSizeReached | crates/lys-core/src/tlog/verify.rs:32-38 | every tree of more than 2^52 leaves below the bound has a path of 53 and a proof of 54 nodes |
| Tree.AppendOnlyTree.constructor | crates/lys-core/src/merkle/tree.rs:77-82 | a new tree has no leaves |
| Tree.AppendOnlyTree.AppendRaw | crates/lys-core/src/merkle/tree.rs:197-201 | appending adds exactly the given bytes at the end and returns the new size |
| Tree.AppendOnlyTree.ProveInclusion | crates/lys-core/src/merkle/tree.rs:109-122 | a path exactly for the indices in range; the verifier accepts it for the leaf there and the tree's current root |
| Tree.AppendOnlyTree.ProveConsistency | crates/lys-core/src/merkle/tree.rs:135-172 | a proof exactly when the new size is the tree's and 0 < old <= new; the verifier accepts it for the root at the older size and the current root |
| Tree.AppendOnlyTree.Reconstruct | crates/lys-core/src/merkle/tree.rs:209-219 | rebuilding leaf by leaf gives the tree of the given leaves |
| Base64.DecodeEncode | crates/lys-core/src/checkpoint/body.rs:72-79 | decoding inverts encoding for every byte string |
| Base64.EncodeDecode | crates/lys-core/src/checkpoint/body.rs:170-194 | only the canonical text (padding, zero trailing bits) of a byte string is accepted |
| Base64.EncodeAlphabet | crates/lys-core/src/checkpoint/body.rs:72-79 | encoded text has only the 64 symbols and '=' |
| Base64.SymbolIsAlphabet | crates/lys-core/src/checkpoint/body.rs:72-79 | the symbols are Table 1 of RFC 4648 |
| Base64.EncodeAt | crates/lys-core/src/checkpoint/body.rs:72-79 | every symbol by position: the next six bits of its group of three octets, or padding |
| Decimal.ParseMinimalExact | crates/lys-core/src/checkpoint/body.rs:151-168 | tree-size text is accepted exactly when it is the minimal decimal form of a u64 |
| Decimal.ValuePadded | crates/lys/src/commands/log/store.rs:215-218 | a zero-padded name denotes its index |
| Decimal.PaddedValue | crates/lys/src/commands/log/store.rs:363-387 | a 20-digit name is the zero-padded form of the index it denotes |
| Decimal.PaddedAt | crates/lys/src/commands/log/store.rs:215-218 | the digit at every position, most significant first |
| Decimal.MinimalAt | crates/lys-core/src/checkpoint/body.rs:72-79 | the same for tree sizes |
| Utf8.Utf8Cut | crates/lys-core/src/checkpoint/note.rs:222-231 | cutting UTF-8 text at an ASCII octet leaves UTF-8 on both sides |
| Utf8.Utf8Concat | crates/lys-core/src/checkpoint/note.rs:127 | text put together from UTF-8 pieces is UTF-8 |
| Utf8.AsciiSpace | crates/lys-core/src/checkpoint/verifier_key.rs:35-39 | an ASCII white-space octet anywhere in UTF-8 text is a white-space character |
| Unicode.Utf8Exact | crates/lys-core/src/checkpoint/note.rs:157-165 | octets are text exactly when they encode code points |
| Unicode.HasSpaceExact | crates/lys-core/src/checkpoint/verifier_key.rs:35-39 | the white-space test is the White_Space property of some code point |
| Unicode.NoControlExact | crates/lys-core/src/checkpoint/note.rs:113-118 | "below 0x20" is the same on octets as on characters |
| Text.TerminatedSplit | crates/lys-core/src/checkpoint/note.rs:232-237 | splitting into lines loses nothing |
| Text.SplitTerminated | crates/lys-core/src/checkpoint/note.rs:232-237 | lines without newlines are recovered from their text |
| Text.TerminatedNoBlank | crates/lys-core/src/checkpoint/body.rs:11-12 | non-empty lines never form a blank line |
| Names.ValidNameBytes | crates/lys-core/src/checkpoint/verifier_key.rs:29-46 | a valid name has no newline, space or '+' octet |
| Unicode.ValidNameExact | crates/lys-core/src/checkpoint/verifier_key.rs:29-46 | a name is valid exactly when it is non-empty text without a white-space character and without '+' |
| Names.FromHexLower | crates/lys-core/src/checkpoint/verifier_key.rs:140-150 | lowercase hex of a key ID parses back to it |
| Names.HexLowerFrom | crates/lys-core/src/checkpoint/verifier_key.rs:168-180 | parsing hex of either case and printing lowercases it |
| Names.HexLowerAt | crates/lys-core/src/checkpoint/verifier_key.rs:140-150 | two digits per octet, most significant first |
| Names.NewKeyExact | crates/lys-core/src/checkpoint/verifier_key.rs:55-90 | a key is made exactly for a valid name, with the ID of name, 0x0A, 0x01 and key |
| Names.FromSpecToSpec | crates/lys-core/src/checkpoint/verifier_key.rs:92-150 | emitting then parsing a verifier key returns it, even when its base64 contains '+' |
| Names.ToSpecFromSpec | crates/lys-core/src/checkpoint/verifier_key.rs:92-150 | an accepted specification is the emitted form up to hex case, of a key whose ID matches its name and public key |
| Names.FromSpecExact | crates/lys-core/src/checkpoint/verifier_key.rs:92-150 | text is accepted as a key exactly when the name is valid, the ID is the first four octets of the hash of name, 0x0A, 0x01 and key, and the text is the emitted form up to hex case |
| Checkpoint.ParseRootExact | crates/lys-core/src/checkpoint/body.rs:170-194 | a root line is accepted exactly when it is the base64 of 32 bytes |
| Checkpoint.ParseExact | crates/lys-core/src/checkpoint/body.rs:95-127 | a body is accepted exactly when it is an encoded checkpoint followed by non-empty extension lines |
| Checkpoint.ParseEncode | crates/lys-core/src/checkpoint/body.rs:72-127 | parsing inverts encoding for every origin, u64 size and root |
| Checkpoint.EncodeParse | crates/lys-core/src/checkpoint/body.rs:72-127 | re-encoding a parsed body gives exactly its first three lines |
| Checkpoint.EncodedBody | crates/lys-core/src/checkpoint/note.rs:98-118 | an encoded body passes every signing check except, exactly when the origin has one, the control-character check |
| NoteGrammar.Parse | crates/lys-core/src/checkpoint/note.rs:218-243 | the loop that pushes signature lines under the 100-line cap computes the declarative parse |
| NoteGrammar.ParseLinesPointwise | crates/lys-core/src/checkpoint/note.rs:235-241 | a signature block parses exactly when each of its lines does, to the lines in order |
| NoteGrammar.ParseLineText | crates/lys-core/src/checkpoint/note.rs:245-269 | a printed signature line parses to its name, key ID and signature |
| NoteGrammar.LineTextParse | crates/lys-core/src/checkpoint/note.rs:245-269 | an accepted line is the print of what it parses to |
| NoteBijection.LastBlankAfterBody | crates/lys-core/src/checkpoint/note.rs:226-231 | the last blank line is the one after the body, whatever blank lines the body has |
| NoteBijection.ParseRender | crates/lys-core/src/checkpoint/note.rs:218-269 | every well-formed note parses back from its text |
| NoteBijection.RenderParse | crates/lys-core/src/checkpoint/note.rs:218-269 | every accepted text is the print of one well-formed note |
| NoteBijection.RenderIs | crates/lys-core/src/checkpoint/note.rs:127 | the text of a note line by line, octet by octet |
| NoteBijection.WfNoteIs | crates/lys-core/src/checkpoint/note.rs:157-269 | the accepted notes condition by condition, with the 1 MiB and 100-line caps |
| NoteBijection.ParseNoteExact | crates/lys-core/src/checkpoint/note.rs:218-269 | text is parsed to a note exactly when it is the print of that well-formed note |
| SignedNote.Verify | crates/lys-core/src/checkpoint/note.rs:170-189 | the early-exit loop computes the verdict that `VerifyNoteExact` characterises |
| SignedNote.FirstMatchLeast | crates/lys-core/src/checkpoint/note.rs:173-187 | the deciding line is the matching line with the least position |
| SignedNote.VerifyNoteExact | crates/lys-core/src/checkpoint/note.rs:150-189 | text verifies to a body exactly when it is the print of a well-formed note with that body and its first line by the key's name and ID has a 64-octet signature that verifies over the body |
| SignedNote.FirstMatchInsert | crates/lys-core/src/checkpoint/note.rs:173-187 | a foreign line anywhere, or any line after a match, leaves the deciding line alone |
| SignedNote.VerdictUnderInsertion | crates/lys-core/src/checkpoint/note.rs:157-189 | such a line never changes the verdict on the text, within the caps |
| SignedNote.SignedNoteHasOneBlankLine | crates/lys-core/src/checkpoint/note.rs:94-140 | the only blank line of an emitted note is the one that ends its body |
| SignedNote.SignNoteExact | crates/lys-core/src/checkpoint/note.rs:94-140 | a note is emitted exactly under the listed checks, and is the body, a newline, and one line with the signature over the body |
| SignedNote.SignThenVerify | crates/lys-core/src/checkpoint/note.rs:94-140 | an emitted note verifies to its body exactly when the key name has no control octet |
| SignedNote.ControlNameSignsButNeverVerifies | crates/lys-core/src/checkpoint/note.rs:113-118 | the instance on which the documented promise fails |
| SignedNote.SignableCheckpoint | crates/lys-core/src/checkpoint/note.rs:94-140 | a checkpoint signs under its own origin exactly when the origin has no control octet and the note fits 1 MiB |
| SignedNote.CheckpointRoundTrip | crates/lys-core/src/checkpoint/note.rs:203-213 | every checkpoint signed under its own origin verifies to the same value |
| SignedNote.VerifyCheckpointExact | crates/lys-core/src/checkpoint/note.rs:203-213 | text verifies to a checkpoint exactly when it is a note validly signed by the key whose body states that checkpoint under the key's own name |
| ProofText.NodesJoin | crates/lys-core/src/merkle/proof.rs:120-138 | the byte form of a proof is read back as its nodes |
| ProofText.JoinNodes | crates/lys-core/src/merkle/proof.rs:125-138 | a whole number of digests is the byte form of the nodes read from it |
| ProofText.JoinAt | crates/lys-core/src/tlog/build.rs:153-164 | each node is where the byte form has it |
| ProofText.DecodeHashEntries | crates/lys-core/src/tlog/verify.rs:136-148 | the buffer loop computes the declarative decoding, or refuses |
| ProofText.DecodeHashesExact | crates/lys-core/src/tlog/build.rs:153-164 | hash entries decode to a proof exactly when they are the chunked texts of its nodes |
| Artifacts.NodesOfEntries | crates/lys-core/src/tlog/verify.rs:136-148 | a proof is refused as text exactly when an entry is not the base64 of 32 bytes; the later whole-digest check never fails |
| Artifacts.VerifyInclusionArtifact | crates/lys-core/src/tlog/verify.rs:55-83 | the chain of checks with both loops computes the inclusion verdict, hashing exactly the inputs the soundness results speak of |
| Artifacts.VerifyConsistencyArtifact | crates/lys-core/src/tlog/verify.rs:101-130 | the chain of checks with both loops computes the consistency verdict, hashing for the newer root exactly the inputs the soundness results speak of |
| Artifacts.InclusionArtifactExact | crates/lys-core/src/tlog/verify.rs:55-83 | for any leaf list with the signed size and root, an artifact is accepted exactly when its checkpoint is a note validly signed by the key that states size and root, the leaf is the one at the index and the hashes are the texts of its audit path; otherwise an input hashed to verify it collides with one of the tree |
| Artifacts.ConsistencyArtifactExact | crates/lys-core/src/tlog/verify.rs:101-130 | with only the newer list known, an artifact is accepted exactly when both checkpoints are notes validly signed by the key that state its sizes, the older root is the root of the prefix and the hashes are the texts of its proof; otherwise an input hashed to verify it collides with one of the newer tree |
| Artifacts.ConsistencyArtifactSound | crates/lys-core/src/tlog/verify.rs:101-130 | accepted checkpoints are of one origin and any lists behind them extend one another, or an input hashed for the older list or the proof collides with one hashed for the newer list or its prefix |
| Artifacts.IncludedStaysIncluded | crates/lys-core/src/tlog/verify.rs:40-130 | a leaf accepted under the older checkpoint is the leaf at the same index of the newer log, or an input hashed for the two proofs collides with one hashed for the newer list or its prefix |
| Artifacts.OwnCheckpoint | crates/lys-core/src/tlog/build.rs:113-127 | a log's checkpoint signs exactly when its origin is signable, and verifies to its origin, size and root |
| Artifacts.BuildInclusionExact | crates/lys-core/src/tlog/build.rs:43-73 | the builder emits exactly for the leaf bytes at the index of a signable log within bounds, or an input hashed for the bytes and the tree's path collides with one of the tree |
| Artifacts.BuildConsistencyExact | crates/lys-core/src/tlog/build.rs:89-136 | the builder emits for every proper non-empty prefix of a signable log within bounds, and otherwise only if an input hashed for the older list or the proof collides with one hashed for the newer list or its prefix |
| ArtifactBuilder.BuildInclusionArtifact | crates/lys-core/src/tlog/build.rs:43-73 | on tree objects and with the verifier loops, the builder computes the artifact characterised above |
| ArtifactBuilder.BuildConsistencyArtifact | crates/lys-core/src/tlog/build.rs:89-136 | on two tree objects and with the verifier loops, the builder computes the artifact characterised above |
| LeafFiles.NameIndex | crates/lys/src/commands/log/store.rs:215-218 | the name of every u64 index is a leaf name denoting it |
| LeafFiles.NameDigits | crates/lys/src/commands/log/store.rs:215-218 | the digits of a file name, most significant first |
| LeafFiles.HoldsExact | crates/lys/src/commands/log/store.rs:360-375 | the checks of the scan say exactly that |
| LeafFiles.HoldsUnique | crates/lys/src/commands/log/store.rs:338-343 | a directory holds at most one leaf list |
| LeafFiles.HoldsAppend | crates/lys/src/commands/log/store.rs:213-230 | the next index is always free, and a file there adds exactly one leaf |
| LeafFiles.SortSorts | crates/lys/src/commands/log/store.rs:374 | sorting keeps the indices and makes them strictly increasing |
| LeafFiles.CollectIndices | crates/lys/src/commands/log/store.rs:350-373 | the scan collects the index of every name that does not start with a dot, each once, or refutes every leaf list |
| LeafFiles.FirstGap | crates/lys/src/commands/log/store.rs:375-384 | the contiguity loop finds the first position not holding its own index |
| LeafFiles.GapRefutes | crates/lys/src/commands/log/store.rs:375-384 | a gap means no leaf list fits the directory |
| LeafFiles.ReadLeaves | crates/lys/src/commands/log/store.rs:344-391 | succeeds, in any listing order, exactly when every name is UTF-8 and those not starting with a dot are the 20-digit names of 0 to n - 1, regular files, and returns their contents in order |
| LogDisk.PlanOfLoads | crates/lys/src/commands/log/store.rs:141-202 | the outcome of opening depends on the directory alone |
| LogDisk.DecodePinnedRootExact | crates/lys/src/commands/log/store.rs:141-173 | a pinned root is accepted exactly as the canonical base64 of 32 octets |
| LogStore.Disk.Do | crates/lys/src/commands/log/store.rs:219-230 | one file operation: completed, refused, or cut by the crash |
| LogStore.WriteState | crates/lys/src/commands/log/store.rs:314-336 | the state rewrite is create, write, rename, cut anywhere by a crash |
| LogStore.Init | crates/lys/src/commands/log/store.rs:100-129 | refuses an invalid origin or an existing configuration untouched; otherwise configuration first, state last |
| LogStore.LogStore.PrefixTree | crates/lys/src/commands/log/store.rs:262-276 | the tree of the first leaves, or an error past the end |
| LogStore.LogStore.Append | crates/lys/src/commands/log/store.rs:213-235 | the disk after the five operations under any crash, and memory, which a failed append has advanced exactly when the leaf write finished |
| LogStore.LogStore.CheckAgainstState | crates/lys/src/commands/log/store.rs:175-202 | accept, recover one leaf by rewriting the state, or reject, with u64 wrap-around of the size |
| LogStore.Open | crates/lys/src/commands/log/store.rs:141-171 | the store and the disk for accepted, recovered (under any crash) and rejected directories |
| LogRuns.ExecState | crates/lys/src/commands/log/store.rs:314-336 | the pinned state changes only at the rename, and leaves never do |
| LogRuns.ExecAppend | crates/lys/src/commands/log/store.rs:213-235 | what every crash point of an append leaves on disk |
| LogRuns.PlanOfSound | crates/lys/src/commands/log/store.rs:175-202 | a sound directory always opens: as pinned, or with its one extra leaf |
| LogRuns.OpenSound | crates/lys/src/commands/log/store.rs:141-202 | opening keeps the files; with the rewrite completed it pins them, interrupted it changes nothing that matters |
| LogRuns.AppendSound | crates/lys/src/commands/log/store.rs:204-235 | an append pins the leaf, or crashes leaving the log as it was, or leaving one prefix of the leaf |
| LogRuns.StepSound | crates/lys/src/commands/log/store.rs:11-30 | every command keeps the directory sound and only extends what is pinned |
| LogRuns.RunHistory | crates/lys/src/commands/log/store.rs:11-30 | every run has a history of pinned lists and files that only grow |
| LogRuns.PinnedForever | crates/lys/src/commands/log/store.rs:141-276 | every pinned size and root is that of a prefix of every later leaf list, on disk and in memory |
| LogGuarantees.CrashRecovery | crates/lys/src/commands/log/store.rs:175-235 | after a crash anywhere in an append and any number of crashing opens, the next open succeeds with the pinned leaves plus at most a prefix of the interrupted leaf, and a second open changes nothing |
| LogReuse.MemoryAhead | crates/lys/src/commands/log/store.rs:227-233 | memory is extended exactly when the leaf file was created and written, before the root is pinned |
| LogReuse.TryTracks | crates/lys/src/commands/log/store.rs:204-235 | one append by a store in any state, stopped anywhere: what is pinned, in memory and in the leaf files afterwards |
| LogReuse.ReuseExact | crates/lys/src/commands/log/store.rs:175-235 | after any number of appends by one store, each stopped anywhere, the directory is refused exactly when two or more leaf files are unpinned; otherwise it opens with the files, which extend all that was pinned |
| LogReuse.NextAppendSafe | crates/lys/src/commands/log/store.rs:204-235 | the next append of such a store is safe at every crash point exactly when its memory is not ahead of the pinned size |
| LogReuse.StaleStoreExact | crates/lys/src/commands/log/store.rs:227-234 | for all crash points of two appends by one store: the directory is refused exactly when the first stopped between extending memory and pinning and the second between creating its file and pinning; otherwise everything pinned is kept |
| LogGuarantees.OpenIsTamperEvident | crates/lys/src/commands/log/store.rs:141-202 | for arbitrary contents, a directory that opens under a pinned root holds the pinned list, or it and one leaf, or an input hashed for the leaves read collides with one hashed for the pinned list |
| LogGuarantees.InitAllOrUnusable | crates/lys/src/commands/log/store.rs:100-129 | a finished init is an empty sound log; one cut after its first operation never opens and is never redone |
| LogGuarantees.AnyPinnedSizeIsProvable | crates/lys-core/src/tlog/build.rs:89-136 | from any size of at least 1 ever pinned to any larger later log, the consistency artifact builds and passes its self-verification |
| LogDriver.Command | crates/lys/src/commands/log/store.rs:141-235 | one command run with the store's methods on the disk is one step of the log's state machine |
| LogDriver.Drive | crates/lys/src/commands/log/store.rs:11-30 | a program of such commands, each stopped anywhere, ends in the state machine's world |
| LogDriver.ProgramIsRun | crates/lys/src/commands/log/store.rs:11-30 | on a freshly initialized log every such program is a run, so all that is proved of runs holds of it |
| Cbor.DecodeHeadOf | crates/lys-core/src/attestation/encoding.rs:68-89 | every head decodes to its major type and argument, whatever follows |
| BigEndian.ToBeAt | crates/lys-core/src/attestation/encoding.rs:80-88 | the octet at every position, most significant first |
| Cbor.HeadIs | crates/lys-core/src/attestation/encoding.rs:70-89 | the five head forms written out for every number |
| Cbor.HeadPrefixFree | crates/lys-core/src/attestation/encoding.rs:68-89 | no head is a prefix of another |
| Cbor.HeadShortest | crates/lys-core/src/attestation/encoding.rs:68-89 | no octets that decode to the same head are fewer |
| Cbor.DecodeEnc | crates/lys-core/src/attestation/encoding.rs:191-195 | the liberal decoder inverts the encoder on every value of any nesting, whatever follows |
| Cbor.EncInjective | crates/lys-core/src/attestation/encoding.rs:134-149 | equal encodings mean equal values |
| Cbor.DecodeLongTag | crates/lys-core/src/attestation/encoding.rs:191-195 | a long-form tag is decoded too |
| Attestation.ProtectedParts | crates/lys-core/src/attestation/encoding.rs:105-119 | the protected header is its written parts in order, 80 octets |
| Attestation.ClaimsParts | crates/lys-core/src/attestation/encoding.rs:121-132 | the claims are their written parts in order, 38 to 46 octets |
| Attestation.SigParts | crates/lys-core/src/attestation/encoding.rs:134-149 | the signed structure is its written parts in order |
| Attestation.ArtifactParts | crates/lys-core/src/attestation/encoding.rs:151-172 | the artifact is its written parts in order, 191 to 199 octets |
| Attestation.WireBytes | crates/lys-core/src/attestation/encoding.rs:105-172 | the frozen literal octets around the variable fields, the timestamp as one of the five head forms written out |
| Attestation.TextOctets | crates/lys-core/src/attestation/encoding.rs:105-149 | the content type and the context text octet by octet |
| Attestation.FieldsRoundTrip | crates/lys-core/src/attestation/encoding.rs:217-301 | the shape-pinned decoder recovers all four fields of every attestation |
| Attestation.FromCoseExact | crates/lys-core/src/attestation/artifact.rs:78-125 | the parser returns an attestation exactly for its own encoding |
| Attestation.ToCoseInjective | crates/lys-core/src/attestation/artifact.rs:78-85 | distinct attestations have distinct bytes |
| Attestation.GateRejectsLiberalForms | crates/lys-core/src/attestation/artifact.rs:108-125 | trailing octets and a long-form tag pass the decoder and are stopped by the gate |
| Attestation.SignedBytesDetermineFields | crates/lys-core/src/attestation/sign.rs:114-127 | equal signed bytes mean equal signer, payload hash and timestamp |
| Attestation.SignedBytesAreNotText | crates/lys-core/src/attestation/sign.rs:33-45 | signed bytes are never UTF-8, so never a note body |
| Attestation.VerifyBytesExact | crates/lys-core/src/attestation/sign.rs:104-146 | verification accepts exactly the artifact of an attestation with the payload's hash whose signature verifies under its signer over its own signed structure |
| Attestation.SignThenVerifyBytes | crates/lys-core/src/attestation/sign.rs:74-146 | a signed attestation has the given time, signer and payload hash, verifies over the wire for its payload, and for another payload only if the two collide |
| AttestationWriter.Buffer.WriteHead | crates/lys-core/src/attestation/encoding.rs:70-89 | the five-way branch appends the shortest head, given octet by octet, most significant first |
| AttestationWriter.Buffer.WriteI64 | crates/lys-core/src/attestation/encoding.rs:93-103 | appends any 64-bit signed integer as the octets of its head |
| AttestationWriter.BuildProtected | crates/lys-core/src/attestation/encoding.rs:107-119 | the writer calls produce the encoded protected map |
| AttestationWriter.BuildClaims | crates/lys-core/src/attestation/encoding.rs:123-132 | the writer calls produce the encoded claims map |
| AttestationWriter.BuildSigStructure | crates/lys-core/src/attestation/encoding.rs:137-149 | the writer calls produce the encoded signed structure |
| AttestationWriter.BuildArtifact | crates/lys-core/src/attestation/encoding.rs:153-172 | the writer calls produce the encoded artifact |
| KeyCreationSafety.CheckStep | crates/lys-core/src/keys/identity.rs:142-148 | the existence check sends a thread to load or to generate without breaking the invariant, also when it misses the key |
| KeyCreationSafety.ClaimStep | crates/lys-core/src/keys/identity.rs:307-317 | a claimed counter value is fresh among live threads |
| KeyCreationSafety.OpenStep | crates/lys-core/src/keys/identity.rs:377-389 | opening with truncation touches no other thread's file, and not the key unless the name is a second name of it |
| KeyCreationSafety.WriteStep | crates/lys-core/src/keys/identity.rs:390-393 | partial writes touch only the writer's own unpublished inode |
| KeyCreationSafety.LinkStep | crates/lys-core/src/keys/identity.rs:330-350 | the first link publishes what the temp name leads to, which is the caller's complete seed; a later one loses and loads |
| KeyCreationSafety.RemoveStep | crates/lys-core/src/keys/identity.rs:360-374 | removing a temp name removes neither the key nor another thread's name |
| KeyCreationSafety.CrashStep | crates/lys-core/src/keys/identity.rs:13-21 | a process may die anywhere without breaking the invariant |
| KeyCreationSafety.StepKeepsInv | crates/lys-core/src/keys/identity.rs:266-358 | every step of every thread and process keeps the invariant, unless it opens a second name of the key |
| KeyCreationRuns.StepKeepsKey | crates/lys-core/src/keys/identity.rs:324-337 | no step changes a published seed, unless it opens a second name of the key |
| KeyCreationRuns.OneKeyForever | crates/lys-core/src/keys/identity.rs:131-148 | in every interleaving, whatever the checks report: the key once there is one complete 32-byte seed for good and every successful call returns it, if and only if no temp file is opened under a second name of the key |
| KeyCreationRuns.OnlyOwnFailures | crates/lys-core/src/keys/identity.rs:131-148 | a call reports failure only if a file operation of its own failed: losing the race never fails a call |
| KeyCreationRuns.SeenKeyIsLoaded | crates/lys-core/src/keys/identity.rs:142-148 | a call that sees the key returns what it holds and touches no file |
| KeyCreationRuns.FirstCallCreates | crates/lys-core/src/keys/identity.rs:289-337 | a call alone on a missing path publishes its complete seed, returns it and leaves nothing else |
| KeyCreationMiss.SafeClaimsAreCareful | crates/lys-core/src/keys/identity.rs:307-317 | a name that is not the key's when claimed is not the key's when opened |
| KeyCreationMiss.SafeMissesAreCareful | crates/lys-core/src/keys/identity.rs:142-148 | the key is safe in every run in which a check misses it only where no name left to hand out is the key's, so in every run without a miss |
| KeyCreationMiss.HarmfulMiss | crates/lys-core/src/keys/identity.rs:142-148 | the check-time condition is the weakest that is safe whatever follows: where it fails some continuation empties the published key |
| KeyCreationMiss.CleanStartsAreCareful | crates/lys-core/src/keys/identity.rs:142-148 | if every process starts with no leftover temp name of its id on the key's inode, the key is safe whatever the checks report |
| KeyCreationMiss.MissedCheckEmptiesKey | crates/lys-core/src/keys/identity.rs:142-148 | a run from a legal start in which a missed check under a reused process id empties the key |
| KeyCreationRuns.StepKeepsTidy | crates/lys-core/src/keys/identity.rs:284-317 | every step keeps numbers unique among live calls and every temp name owned or leaked, whatever the existence checks report |
| KeyCreationRuns.LeakedSince | crates/lys-core/src/keys/identity.rs:360-374 | a leaked name has been so from the start, or ever since a call was in flight under it and its process ended or its removal failed |
| KeyCreationRuns.NoTempFileLeft | crates/lys-core/src/keys/identity.rs:360-374 | with no call in flight under it, a temp file remains only if it was a leftover never removed since, or if the last call under it was cut short by the end of its process or a failed removal |
| KeyCreationRuns.TmpNameInjective | crates/lys-core/src/keys/identity.rs:307-317 | distinct process ids or counters give distinct temp names, none of them the key's |
| Pem.WrapOneMore | crates/lys/src/commands/pem.rs:31-36 | one more character extends the wrapped text, after a newline exactly at multiples of 64 |
| Pem.EncodeCertificate | crates/lys/src/commands/pem.rs:26-43 | the character loop emits the boundary lines around the body cut into 64-character lines |
| Pem.PemRoundTrip | crates/lys/src/commands/pem.rs:57-100 | decoding returns every non-empty certificate and refuses the empty one; each body line but the last has 64 characters |
| PemTolerance.TrimExact | crates/lys/src/commands/pem.rs:57-70 | trimming removes exactly the white-space characters at both ends |
| PemTolerance.SpacedRoundTrip | crates/lys/src/commands/pem.rs:45-100 | a block decodes to its certificate whatever white space, carriage returns included, stands around its lines |
| Pem.DecodeCertificateExact | crates/lys/src/commands/pem.rs:57-100 | accepted text is exactly UTF-8 whose non-blank trimmed lines are the boundaries around lines that concatenate to the canonical base64 of a non-empty certificate |

## Left out

- Ed25519, SHA-256, X25519, HKDF and AES-GCM internals, and unforgeability.
- Sealed envelopes (`seal/`) and X.509 issuance and verification (`ca/`): thin layers over foreign libraries.
- The postcard leaf encoding: the log uses raw leaves only.
- The inside of the Merkle tree library (`ct_merkle`), which is not part of this model: the tree object keeps its leaves, and its proofs and verifiers are those of the RFCs.
- The inside of the CBOR library (`ciborium`), which is not part of this model: the decoder is RFC 8949's without a nesting limit. Its answers on non-canonical input do not matter, because the gate refuses all of it.
- JSON text of `log.json`, `state.json` and the artifacts: files and artifacts hold their values, and a torn file is unreadable.
- Power loss that reorders writes, and concurrent writers on one log directory: the store is declared single-writer.
- `usize` narrower than 64 bits, and logs of 2^64 - 1 leaves or more.
- Loading an identity from the environment, file permissions, zeroing, error texts, the command line.
- The key race assumes that live processes have distinct ids and that nobody deletes the key; two containers sharing a directory but not a process-id space are outside it.
