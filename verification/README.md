# Verification of mls-rs

A Dafny model of the parts of mls-rs that everything else rests on, and proofs of what they promise: the
wire codec of MLS, HPKE, the ratchet tree with its commits, the secret tree with its message keys, and the
stores and containers around them. `dafny verify dfyconfig.toml` checks the whole project.

**How it is organised.**

- The codec is a deep embedding. A `Schema` stands for a Rust type with `MlsSize`, `MlsEncode` and
  `MlsDecode`; `Size`, `Encode` and `Decode` are the three traits, for all schemas at once
  (`Schema.dfy`, `CodecLaws.dfy`, `Collections.dfy`). `Streams.dfy` holds the readers and writers as
  they work, on a cursor and on a growing buffer, each proved to compute the function of the same name.
  `TreeMap.dfy` adds maps that keep their keys in order. `Derive.dfy` is the derive macro as a function
  from declarations, `Credential.dfy`, `ExtensionList.dfy`, `SmallMap.dfy` and `RatchetCodec.dfy` are
  hand-written codecs on top.
- HPKE (RFC 9180) is `HpkeKdf.dfy`, `HpkeContext.dfy`, `Kem.dfy`, `Hpke.dfy`; the keyed expansion of
  RFC 5869 is `Hkdf.dfy`.
- The ratchet tree (RFC 9420) is `TreeMath.dfy`, `RatchetTree.dfy`, `TreeKem.dfy`, `TreeKemLaws.dfy` and
  `GroupRuns.dfy`; `HpkeSuite.dfy` puts it on top of HPKE. The main theorem is
  `HpkeSuites.AgreementOverHpke`: in every run of a group, over any combination of sound KEMs, every commit
  gives all members the same commit secret and the keys they need for the next one. Beside it stands
  `GroupRuns.AnyPathAnyTime`: what a member makes of any path at all, at any moment of any run.
- The secret tree is `MlsKdf.dfy`, `SecretRatchet.dfy`, `SecretTree.dfy`, `SecretTreeLaws.dfy`. Its main
  theorems say of every run of requests, with a provider that may fail at any moment, that each key handed
  out is the right one and is handed out once, exactly which failures cost a leaf, and, when the provider
  works, exactly which requests succeed.
- Epoch storage is `GroupState.dfy` and `StateRepository.dfy`; GREASE is `Grease.dfy`.

**What is a parameter.** Key derivation, AEAD, Diffie-Hellman groups, hashes and KEMs are records of functions;
what is asked of them is stated as predicates (`AeadCorrect`, `DhLaws`, `ExpandsToLength`, `Sound`, `Works`),
and `Witness.dfy` and `GroupRuns.RunsExist` show that these can be met together. Randomness is an argument
(`Coins`, `seed`, `random`). Failures of the provider or of the database engine are arguments too
(`Faults`, `Trouble`, `fails`), so that theorems over runs cover every pattern of failures. In the ratchet
tree all members use one cipher suite, whose derivations may refuse an input (`refuses`) but give everyone
the same answer.

**Machine arithmetic.** Integers are unbounded in Dafny; a width is written out where the code depends on
it: the 30 bits of a length, the `as u16` of a KDF length, the 64-bit sequence number, the `u8` counter
of HKDF, the `u32` generations, and the bit operations on 32-bit tree indices. Where Rust arithmetic would
panic the model has an outcome of its own (`CounterOverflow`, `Overflow`, `Panicked` for an index out of
range), or `None` in `CountBytes`. Those of arithmetic belong to builds with overflow checks, which Cargo
turns on for debug builds only and no profile of the repository sets. Without them the HKDF counter wraps
after its 255th block, which still comes out right, and later blocks use counters again; the generation of a
ratchet wraps to 0. Indexing out of range panics in every build.

**Where the code and its comments differ, the model follows the code.** `ExtensionList::append` is
documented to replace values of existing types and only concatenates: what is promised holds if and
only if the lists agree on the types they share (`AppendReplacesExactly`, and `AppendKeepsOld` at an input).
The comment in `compute_nonce` speaks of 4 bytes and the code uses 8. HKDF-Expand of RFC 5869 allows 255 blocks and the loop overflows its counter at
the 255th (`ExpandExactly`). Rejection sampling tries 255 candidates where RFC 9180 allows 256
(`SamplingExactly`). A failed `next_message_key` drops the ratchets of the leaf for good, a failed
`message_key_generation` that reached them does not (`FailureKeepsLeafExactly`, `FailedNextIsFinal`).

**Where a property one would expect fails**, there is an input that shows it and the exact condition under
which it holds. Decoded input is not always the encoding of its value: booleans and repeated keys stand in
the way (`CanonicalExactly`, `AnyOrderCanonicalExactly`, `LooseBoolean`, `RepeatedKeyInput`), and for tree maps
the order of keys as well (`TreeMapCanonicalExactly`, `OutOfOrderInput`).
A `SmallMap` decoded from bytes answers as a map if and only if its keys are unique
(`DecodedRunsAgreeExactly`). `write_to_storage` deletes key packages after it has committed the rows and
before it forgets the pending epochs, so a failed deletion leaves a repository whose writes are refused for
as long as it lives (`WedgedExactly`, `FailedDeletionWedges`, `OpeningUnwedges`). `decap` indexes the path at
the common ancestor without a test. Validation refuses only paths that are too long, and the parent hashes
only refuse one that leaves an unfiltered position blank; a short path that leaves all of them in use makes the
receiver panic (`ShortPathPanicsExactly`; `EmptyPathPanics` has the same path refused before the first commit of
a group and causing a panic after it).

## Model

| member | source | states |
|---|---|---|
| VarInts.CountBytesIsShortest | mls-rs-codec/src/varint.rs:94-110 | the leading-zeros classifier gives the shortest of 1, 2 and 4 bytes, and reaches its panic arm exactly above the maximum |
| VarInts.VarIntRoundTrip | mls-rs-codec/src/varint.rs:49-92 | decoding undoes encoding for every length below 2^30 and leaves what follows |
| VarInts.VarIntCanonical | mls-rs-codec/src/varint.rs:70-92 | whatever decodes is the encoding of its value: only shortest forms are accepted |
| Streams.WriteVarInt | mls-rs-codec/src/varint.rs:49-67 | the in-place marking of the first byte appends exactly the encoding of section 2.1.2 of RFC 9420 |
| Streams.ReadVarInt | mls-rs-codec/src/varint.rs:70-92 | the fold over the reader, masks and shifts included, reads and fails as the arithmetic decoder |
| Schemas.Decode | mls-rs-codec/src/vec.rs:47-62 | decoding any bytes under any well-formed schema ends; the unread part is a suffix of the input even on error, and success consumes the minimal size |
| CodecLaws.EncodeLaw | mls-rs-codec/src/iter.rs:9-59 | encoding succeeds exactly on values that fit, writes exactly the computed size, and the preallocating and buffering encoders agree on bytes and errors |
| CodecLaws.RoundTrip | mls-rs-codec/src/iter.rs:42-84 | for every well-formed schema: decoding an encoding followed by anything gives the value and leaves exactly what follows |
| CodecLaws.CanonicalExactly | mls-rs-codec/src/iter.rs:61-84 | with maps listed in the order read: accepted input is the encoding of its value if and only if it has no boolean byte above 1 and no repeated map key |
| CodecLaws.AnyOrderCanonicalExactly | mls-rs-codec/src/map.rs:15-61 | hash maps at any depth: accepted input is an encoding of its value, its maps listed in some order, if and only if it has no boolean byte above 1 and no repeated map key |
| CodecLaws.LooseBoolean | mls-rs-codec/src/bool.rs:15-25 | the byte 2 is read as true and written back as 1 |
| CodecLaws.StrictAgrees | mls-rs-codec/src/bool.rs:21-25 | a reader that refuses those two things gives the same results, errors and remaining bytes as the code wherever it does not refuse them, and everywhere on schemas without booleans and maps |
| CodecLaws.PlainCanonical | mls-rs-codec/src/option.rs:30-38 | schemas without booleans and maps are canonical: input equals the encoding of the result followed by the rest |
| CodecLaws.PrefixFree | mls-rs-codec/src/iter.rs:42-59 | no encoding is a proper prefix of another and different values encode differently |
| Collections.ByteVecEncodesAlike | mls-rs-codec/src/byte_vec.rs:10-39 | the byte fast path has the length, bytes and failures of the generic vector codec |
| Collections.ByteVecDecodesAlike | mls-rs-codec/src/byte_vec.rs:42-56 | on every input both read the same, fail the same and stop at the same place |
| Collections.ProgressExactly | mls-rs-codec/src/vec.rs:51-61 | the loop over the remaining bytes advances on every accepted element if and only if elements occupy at least one byte |
| Collections.MapDecodes | mls-rs-codec/src/map.rs:35-50 | any run of entries decodes to a map in which each key has the value written last |
| TreeMaps.TreeMapCanonicalExactly | mls-rs-codec/src/map.rs:63-89 | for every strict total order on the keys: accepted input is the encoding of the sorted enumeration of its tree map if and only if the strict reader accepts it and the entries ascend |
| TreeMaps.HashMapCanonicalExactly | mls-rs-codec/src/map.rs:15-61 | accepted input is the encoding of its hash map in some order if and only if the strict reader accepts it |
| TreeMaps.OutOfOrderInput | mls-rs-codec/src/map.rs:63-89 | two entries in falling order decode and are encoded in rising order |
| TreeMaps.RepeatedKeyInput | mls-rs-codec/src/map.rs:35-50 | two entries with one key decode to the last of them and are written back as one |
| TreeMaps.TreeLookup | mls-rs-codec/src/map.rs:76-89 | the tree map that is read gives each key the value written last |
| TreeMaps.ReadTreeMap | mls-rs-codec/src/map.rs:76-89 | the loop that inserts entry after entry in key order computes that map, with errors and remaining bytes |
| Streams.Read | mls-rs-codec/src/vec.rs:47-62 | the recursive reader on a mutable cursor computes the decoder, results, errors and remaining bytes |
| Streams.ReadItems | mls-rs-codec/src/vec.rs:51-61 | the push loop over a collection body yields its elements or the first error |
| Streams.SplitBody | mls-rs-codec/src/iter.rs:74-84 | splits the body of a collection off the reader, or reports the end of input |
| Streams.Write | mls-rs-codec/src/iter.rs:20-59 | the writer appends the encoding to what was there, or fails with its error |
| Streams.EncodeToVec | mls-rs-codec/src/iter.rs:20-59 | with either collection encoder the bytes are the same |
| Derive.StructEncodeAgrees | mls-rs-codec-derive/src/lib.rs:247-271 | the generated field-by-field encoder is the encoder of the nested pair schema |
| Derive.StructDecodeAgrees | mls-rs-codec-derive/src/lib.rs:247-271 | the generated decoder reads, fails and stops as that schema |
| Derive.StructRoundTrip | mls-rs-codec-derive/src/lib.rs:247-271 | every derived struct: size, encode and decode fit together |
| Derive.AnnotationKeepsEncoding | mls-rs-codec-derive/src/lib.rs:247-271 | the byte_vec annotation changes neither bytes nor errors of a derived encoder |
| Derive.AnnotationKeepsDecoding | mls-rs-codec-derive/src/lib.rs:247-271 | nor anything a derived decoder reads |
| Derive.EnumRoundTrip | mls-rs-codec-derive/src/lib.rs:166-245 | every enum whose derive expands: decoding gives back variant and field |
| Derive.EnumAcceptsDeclared | mls-rs-codec-derive/src/lib.rs:131-203 | the decoder accepts only discriminants that some variant resolves to |
| Derive.EnumEncodeAgrees | mls-rs-codec-derive/src/lib.rs:166-245 | the generated encoder of an enum is the encoder of a tagged schema built from its declaration |
| Derive.EnumDecodeAgrees | mls-rs-codec-derive/src/lib.rs:166-245 | the generated decoder reads, fails and stops as that schema |
| Derive.EnumSizeLaw | mls-rs-codec-derive/src/lib.rs:205-245 | the generated size of an enum counts the bytes written |
| Derive.EnumCanonicalExactly | mls-rs-codec-derive/src/lib.rs:166-245 | accepted input is the encoding of the variant read if and only if the strict reader accepts it |
| Derive.EnumPrefixFree | mls-rs-codec-derive/src/lib.rs:166-245 | no encoding of a variant is a proper prefix of another |
| Credentials.CredentialRoundTrip | mls-rs-core/src/identity/credential.rs:202-229 | a credential comes back if and only if it is not a custom one with a reserved type |
| Credentials.ReservedTypeIsCaptured | mls-rs-core/src/identity/credential.rs:215-229 | the failing case: custom data under type 1 is read as a basic credential |
| Credentials.CredentialCanonical | mls-rs-core/src/identity/credential.rs:215-229 | whatever decodes is the encoding of its credential, which is never a reserved custom one |
| Credentials.CredentialSizeLaw | mls-rs-core/src/identity/credential.rs:189-213 | the size function counts the bytes written, by either collection encoder |
| SmallMaps.SmallMap.Insert | mls-rs/src/map.rs:53-58 | on any vector of pairs, repeated keys included: overwrites the first entry of the key or adds one |
| SmallMaps.SmallMap.Remove | mls-rs/src/map.rs:60-62 | on any vector of pairs: takes out the first entry of the key and returns its value |
| SmallMaps.Run | mls-rs/src/map.rs:48-67 | any run of get, insert and remove on any vector, with the answers it gives |
| SmallMaps.RunsAgreeExactly | mls-rs/src/map.rs:48-67 | all runs answer as a finite map would if and only if the keys are unique at the start |
| SmallMaps.MapRoundTrip | mls-rs-codec/src/map.rs:24-89 | for every map and every order of its entries, decoding gives the map back, as hash or tree map and as vector of pairs |
| SmallMaps.DecodeSmallMap | mls-rs/src/map.rs:90-98 | decoding builds the vector as it was read, repeated keys included |
| SmallMaps.DecodedRunsAgreeExactly | mls-rs/src/map.rs:90-98 | a map decoded from any accepted bytes answers all runs as a finite map if and only if the keys read are unique |
| SmallMaps.DecodedMapRuns | mls-rs/src/map.rs:90-98 | bytes that encode a map, in whatever order, give a vector that answers every run as that map |
| ExtensionLists.SetAllLaw | mls-rs-core/src/extension/list.rs:75-87 | extend and collect keep types unique and overwrite the map, the last value winning |
| ExtensionLists.AppendUnique | mls-rs-core/src/extension/list.rs:164-166 | a concatenation has unique types if and only if both lists have and they share none |
| ExtensionLists.AppendReplacesExactly | mls-rs-core/src/extension/list.rs:164-166 | looking up any appended type gives the appended value if and only if the lists agree on every type they share |
| ExtensionLists.AppendKeepsOld | mls-rs-core/src/extension/list.rs:164-166 | an appended value of an existing type is not found: the old one is |
| ExtensionLists.Run | mls-rs-core/src/extension/list.rs:132-158 | every run of set, extend, collect, remove and decode, refused input included, keeps one entry per type and refines the map |
| ExtensionLists.EqualIsMapEquality | mls-rs-core/src/extension/list.rs:33-40 | on lists with unique types the one-sided test is map equality |
| ExtensionLists.RepeatedTypesBreakEquality | mls-rs-core/src/extension/list.rs:33-40 | with repeated types the test is not symmetric |
| ExtensionLists.DecodeListExactly | mls-rs-core/src/extension/list.rs:42-67 | the decoder accepts what the vector decoder accepts, less the lists with a repeated type |
| ExtensionLists.DecodeListCanonical | mls-rs-core/src/extension/list.rs:42-67 | accepted input is the encoding of a list with unique types |
| ExtensionLists.DecodeListRoundTrip | mls-rs-core/src/extension/list.rs:42-67 | every list with unique types that encodes comes back |
| ExtensionLists.ReadList | mls-rs-core/src/extension/list.rs:43-66 | the decoding loop, which scans the list built so far for each type, computes that decoder |
| Grease.LeafNode.Grease | mls-rs/src/grease.rs:30-40 | greasing changes the leaf as specified, failing exactly if a random byte fails |
| Grease.LeafNode.UngreaseExtensions | mls-rs/src/grease.rs:116-120 | removing the values one by one leaves the other extensions in order |
| Grease.GreasedLaw | mls-rs/src/grease.rs:87-120 | one call on any leaf is invisible after ungreasing, keeps types unique and covered |
| Grease.GreasedShows | mls-rs/src/grease.rs:30-40 | a call that does not fail does leave a value in each of the four lists and among the extensions |
| Grease.GreaseIsInvisible | mls-rs/src/grease.rs:14-40 | after any number of calls, failed ones included, ungreasing gives a grease-free leaf back |
| GroupState.Storage.UpdateGroupState | mls-rs-provider-sqlite/src/group_state.rs:120-182 | the transaction happens as a whole or not at all, whichever statement fails |
| GroupState.WriteIsLocal | mls-rs-provider-sqlite/src/group_state.rs:120-182 | updates create no epoch and other groups keep their rows |
| GroupState.WriteKeepsWindow | mls-rs-provider-sqlite/src/group_state.rs:120-182 | a successful write with increasing ids keeps exactly the retention window of everything inserted |
| GroupState.RetentionTheorem | mls-rs-provider-sqlite/src/group_state.rs:108-182 | after every run with increasing ids: at most the limit of epochs, all in the window, each with its latest data, and the largest id is the last inserted |
| GroupState.ReadAfterRun | mls-rs-provider-sqlite/src/group_state.rs:91-106 | reading an epoch after any such run gives its latest data inside the window and nothing outside |
| StateRepository.FlushIsIncreasing | mls-rs/src/group/state_repo.rs:195-231 | pending epochs that continue the storage are written with increasing ids |
| StateRepository.RepositoryTheorem | mls-rs/src/group/state_repo.rs:66-231 | any use of any number of repositories, one to a group, opened, used and opened again over one storage, with any failures, keeps the window theorem if the retention limit is at least 1; a repository is stale exactly if a key package deletion failed with inserts pending since it was opened |
| StateRepository.ActionKeepsGood | mls-rs/src/group/state_repo.rs:195-231 | every action, failed writes and failed key package deletions included, keeps that invariant |
| StateRepository.ContinuesIsAccepted | mls-rs/src/group/state_repo.rs:195-231 | a repository that continues the storage has its writes accepted |
| StateRepository.StaleIsRefused | mls-rs/src/group/state_repo.rs:195-231 | a stale one has them refused by the primary key |
| StateRepository.WedgedExactly | mls-rs/src/group/state_repo.rs:195-231 | after any run a repository has every later write refused, until another is opened, if and only if a deletion failed with inserts pending since it was opened |
| StateRepository.FailedDeletionWedges | mls-rs/src/group/state_repo.rs:195-231 | a concrete run after which the repository never writes again |
| StateRepository.OpeningUnwedges | mls-rs/src/group/state_repo.rs:71-86 | whatever happened before, a newly opened repository is not wedged |
| StateRepository.NoRetentionNoOrder | mls-rs/src/group/state_repo.rs:88-98 | with limit 0 the condition fails: an older epoch is accepted after a newer one |
| Hkdf.Expand | mls-rs-crypto-webcrypto/src/hkdf.rs:50-66 | the chunked buffer loop, the counter and every failure of the keyed hash included |
| Hkdf.ExpandExactly | mls-rs-crypto-webcrypto/src/hkdf.rs:50-66 | the output is the first bytes of T(1), T(2), ... of RFC 5869 if and only if 254 blocks suffice; beyond, the counter overflows |
| Hkdf.ExpandPrefix | mls-rs-crypto-webcrypto/src/hkdf.rs:50-66 | a shorter output is a prefix of a longer one |
| Hkdf.EmptyKeyIsHmac | mls-rs-crypto-webcrypto/src/hkdf.rs:81-107 | the special case for an empty key is HMAC under the empty key |
| HpkeKdfs.ExtractUnambiguous | mls-rs-crypto-hpke/src/kdf.rs:39-51 | equal extract inputs have the same suite, label and key material |
| HpkeKdfs.ExpandUnambiguous | mls-rs-crypto-hpke/src/kdf.rs:55-72 | equal expand inputs have the same suite, label, info and transmitted length |
| HpkeKdfs.LabelsCollideExactly | mls-rs-crypto-hpke/src/kdf.rs:39-86 | under one suite two labels can give equal inputs if and only if one is a prefix of the other |
| HpkeContexts.EncryptionContext.ComputeNonce | mls-rs-crypto-hpke/src/context.rs:188-199 | the in-place xor loop from the back computes the specified nonce |
| HpkeContexts.NonceIsXor | mls-rs-crypto-hpke/src/context.rs:188-199 | that nonce is the base nonce xor the big-endian number, as in section 5.2 of RFC 9180 |
| HpkeContexts.NonceInjective | mls-rs-crypto-hpke/src/context.rs:188-199 | numbers that fit in the nonce have different nonces |
| HpkeContexts.ShortNonceRepeats | mls-rs-crypto-hpke/src/context.rs:188-199 | below 8 bytes nonces repeat, so that bound is exact |
| HpkeContexts.EncryptionContext.SealNext | mls-rs-crypto-hpke/src/context.rs:213-223 | sealing advances the number exactly when a ciphertext is returned |
| HpkeContexts.EncryptionContext.OpenNext | mls-rs-crypto-hpke/src/context.rs:226-236 | opening advances it exactly when a plaintext is returned |
| HpkeContexts.NumberCountsReturned | mls-rs-crypto-hpke/src/context.rs:202-223 | over any run the number counts the ciphertexts returned and never wraps |
| HpkeContexts.NoncesAreFresh | mls-rs-crypto-hpke/src/context.rs:188-223 | over any run, failed seals included, returned ciphertexts used pairwise different nonces |
| HpkeContexts.DeliveryTheorem | mls-rs-crypto-hpke/src/context.rs:202-236 | for every schedule that mixes the ciphertexts in order with rejected ones the receiver outputs exactly the plaintexts in order |
| Kems.HashInputBinds | mls-rs-crypto-hpke/src/kem_combiner.rs:82-139 | the default rule binds both secrets, encapsulations and public keys, the X-Wing rule both secrets and the second part |
| Kems.CombinedSound | mls-rs-crypto-hpke/src/kem_combiner.rs:157-356 | two mechanisms that are correct and obey their sizes combine to one, for either rule, with generated and derived keys |
| Kems.TreeSound | mls-rs-crypto-hpke/src/kem_combiner.rs:157-356 | so does every finite tree of them |
| Kems.DeriveNeverPanics | mls-rs-crypto-hpke/src/kem_combiner.rs:310-322 | the expanded seed always splits into the lengths the parts ask for |
| Kems.DeriveWithRejectionSampling | mls-rs-crypto-hpke/src/dhkem.rs:175-204 | the counted loop with its in-place mask computes the specified sampling |
| Kems.SamplingExactly | mls-rs-crypto-hpke/src/dhkem.rs:175-204 | sampling returns the least accepted candidate below 255 and fails if and only if there is none |
| Kems.DhKemSound | mls-rs-crypto-hpke/src/dhkem.rs:71-171 | over a commutative exchange the mechanism is correct and obeys its sizes, for every sampling method |
| Hpkes.SetupAgrees | mls-rs-crypto-hpke/src/hpke.rs:170-216 | for every correct KEM, key pair, info and pre-shared key both sides reach the same context |
| Hpkes.ScheduledIsValid | mls-rs-crypto-hpke/src/hpke.rs:284-305 | a context that was set up has key and nonce of the right sizes and starts at number 0 |
| Hpkes.ExportsAgree | mls-rs-crypto-hpke/src/context.rs:72-78 | both sides export the same secret at every length |
| Hpkes.SealSingleShot | mls-rs-crypto-hpke/src/hpke.rs:122-136 | single-shot sealing through a fresh mutable context |
| Hpkes.OpenSingleShot | mls-rs-crypto-hpke/src/hpke.rs:142-162 | single-shot opening through a fresh mutable context |
| Hpkes.OpenUndoesSeal | mls-rs-crypto-hpke/src/hpke.rs:122-162 | opening undoes sealing |
| Hpkes.DerivedPairOpens | mls-rs-crypto-hpke/src/hpke.rs:219-230 | also under a key pair derived from any input material |
| Hpkes.ConversationWorks | mls-rs-crypto-hpke/src/hpke.rs:170-216 | a receiver set up from the sender reads whole conversations in order, rejected ciphertexts mixed in |
| Hpkes.ScheduleContextBinds | mls-rs-crypto-hpke/src/hpke.rs:277-282 | the schedule context fixes the mode and both hashes |
| Hpkes.ScheduleInputsAreSeparate | mls-rs-crypto-hpke/src/hpke.rs:258-313 | no two purposes of one schedule feed the KDF the same input |
| TreeMath.EveryIndexIsANode | mls-rs/src/tree_kem/math.rs:117-119 | indices up to twice the root are exactly the nodes of the complete tree |
| TreeMath.ChildrenLaw | mls-rs/src/tree_kem/math.rs:87-94 | the xor tricks give the two children by level and position |
| TreeMath.ParentLaw | mls-rs/src/tree_kem/math.rs:96-111 | the mask and the comparison give parent and sibling of every node but the root |
| TreeMath.DirectCopath | mls-rs/src/tree_kem/math.rs:36-52 | the loop yields the path to the root with the sibling of each step, and nothing outside the tree |
| TreeMath.LeafLcaLevel | mls-rs/src/tree_kem/math.rs:134-146 | the shifting loop computes the level of the lowest common ancestor |
| TreeMath.LcaLaw | mls-rs/src/tree_kem/math.rs:134-146 | two leaves share their ancestor at a level if and only if it is not below that one |
| TreeMath.CopathSplitsLeaves | mls-rs/src/tree_kem/math.rs:36-52 | every other leaf is below exactly one copath node, the one under the common ancestor |
| RatchetTrees.NodeVec.GetResolutionIndex | mls-rs/src/tree_kem/node.rs:375-393 | the loop with its stack yields the resolution of section 4.1.1 of RFC 9420, in order |
| RatchetTrees.NodeVec.IsResolutionEmpty | mls-rs/src/tree_kem/node.rs:395-425 | the search decides whether that resolution is empty |
| RatchetTrees.NodeVec.FilteredPath | mls-rs/src/tree_kem/node.rs:278-284 | which positions of the path of a leaf are filtered |
| RatchetTrees.NodeVec.BlankDirectPath | mls-rs/src/tree_kem/node.rs:306-314 | blanks the nodes above a leaf and no others |
| RatchetTrees.NodeVec.UpdateUnmerged | mls-rs/src/tree_kem/mod.rs:328-337 | every parent in use above a new leaf notes it as unmerged |
| RatchetTrees.RemoveKeepsTree | mls-rs/src/tree_kem/mod.rs:342-378 | removing a member keeps trees well-formed: unmerged leaves are members below, parents have members on both sides |
| RatchetTrees.UpdateKeepsTree | mls-rs/src/tree_kem/mod.rs:430-516 | so does replacing a leaf and blanking its path |
| RatchetTrees.AddKeepsTree | mls-rs/src/tree_kem/mod.rs:641-662 | so does adding a member |
| RatchetTrees.ShrinkKeepsTree | mls-rs/src/tree_kem/node.rs:317-321 | so does giving up an unused right half |
| RatchetTrees.GrowKeepsTree | mls-rs/src/tree_kem/node.rs:226-228 | so does doubling the width |
| TreeKems.PathSecretGenerator.NextSecret | mls-rs/src/tree_kem/path_secret.rs:122-136 | the generator yields its start once and from then on what deriving from the last secret gives; a failure uses the secret up |
| TreeKems.TreeKem.RenewPath | mls-rs/src/tree_kem/kem.rs:75-98 | the loop over the path installs new keys where it is not filtered, in the tree and with the committer, if and only if all derivations up to there succeed |
| TreeKems.TreeKem.EncryptNode | mls-rs/src/tree_kem/kem.rs:322-356 | one ciphertext per node of the resolution that is not excluded, in order |
| TreeKems.TreeKem.EncryptPath | mls-rs/src/tree_kem/kem.rs:176-206 | the path nodes of all positions that are not filtered |
| TreeKems.TreeKem.EncapPath | mls-rs/src/tree_kem/kem.rs:62-171 | encapsulation: tree, keys, path, path secrets and commit secret; it succeeds if and only if hashing and signing, every derivation, the one of the commit secret included, and every encryption do |
| TreeKems.TreeKem.FindResolvedPos | mls-rs/src/tree_kem/kem.rs:375-391 | the lowest ancestor in use, or the leaf if its key is missing |
| TreeKems.TreeKem.FindSecret | mls-rs/src/tree_kem/kem.rs:260-290 | finds and opens the ciphertext meant for the member, refuses, or panics on an index beyond the path |
| TreeKems.TreeKem.ClimbPath | mls-rs/src/tree_kem/kem.rs:292-318 | derives the secrets upwards, checks each public key, and ends at the commit secret or at the first failure |
| TreeKems.TreeKem.DecapPath | mls-rs/src/tree_kem/kem.rs:244-319 | decapsulation as a whole: keys and commit secret, an error, or a panic |
| TreeKems.UnfilterNodes | mls-rs/src/tree_kem/update_path.rs:96-114 | puts the received nodes at the positions that are not filtered, or reports a wrong length |
| TreeKems.ApplyUpdatePath | mls-rs/src/tree_kem/mod.rs:270-326 | the received leaf and keys replace those of the path; a missing leaf, the identity provider, the index, a blank unfiltered position, hashing or a wrong parent hash refuse, in that order |
| TreeKems.HashParents | mls-rs/src/tree_kem/parent_hash.rs:116-141 | the loop from the root down over the unfiltered positions ends at the first blank one or failed hash |
| TreeKems.UpdateSecrets | mls-rs/src/tree_kem/private.rs:42-91 | a new member derives and checks the keys from the common ancestor up, with every failure of a derivation |
| TreeKemLaws.NewTreeWellFormed | mls-rs/src/tree_kem/kem.rs:84-121 | a commit keeps the tree well-formed |
| TreeKemLaws.FilteredIsBlank | mls-rs/src/tree_kem/node.rs:275-284 | in a well-formed tree a filtered position is blank, so skipping it loses no key |
| TreeKemLaws.UnfilterHonest | mls-rs/src/tree_kem/update_path.rs:96-114 | receivers put every node of a committer back at its position |
| TreeKemLaws.AppliedIsInstalled | mls-rs/src/tree_kem/mod.rs:294-303 | and thereby arrive at the committer's tree |
| TreeKemLaws.InResolution | mls-rs/src/tree_kem/kem.rs:394-412 | a member is always reached: through its lowest ancestor in use or as unmerged leaf |
| TreeKemLaws.FoundSecret | mls-rs/src/tree_kem/kem.rs:257-290 | the ciphertext a member picks opens to the path secret of the common ancestor |
| TreeKemLaws.DecapAgrees | mls-rs/src/tree_kem/kem.rs:244-319 | every member that was there before gets the commit secret and holds the keys of the new tree |
| TreeKemLaws.CommitterConsistent | mls-rs/src/tree_kem/kem.rs:84-121 | so does the committer |
| TreeKemLaws.SameFilter | mls-rs/src/tree_kem/private.rs:62-69 | the filter a new member computes for itself agrees with the committer's from the common ancestor up |
| TreeKemLaws.JoinAgrees | mls-rs/src/tree_kem/private.rs:42-91 | the path secret a new member is sent exists and brings it in step with the new tree |
| TreeKemLaws.AcceptedPathIsUsable | mls-rs/src/tree_kem/kem.rs:299-316 | whatever path arrives, honest or not: a member that comes to an end with it without an error holds keys that fit its tree |
| TreeKemLaws.ShortPathPanicsExactly | mls-rs/src/group/mod.rs:2130-2188 | in a well-formed tree a member panics on a path if and only if the checks let it through, the member finds its position, no more nodes were sent than there are unfiltered positions below the common ancestor, and every unfiltered position the path does not reach is in use |
| TreeKemLaws.HashesExactly | mls-rs/src/tree_kem/parent_hash.rs:116-141 | after any path the parent hashes go through if and only if every unfiltered position is reached by the path or in use, and no hash fails |
| TreeKemLaws.FoundExactly | mls-rs/src/tree_kem/kem.rs:394-412 | the position is found if and only if the member is not counted as added or holds a key above its leaf there |
| TreeKemLaws.CommitSucceeds | mls-rs/src/tree_kem/kem.rs:322-359 | with a provider that does not fail every member can commit in every well-formed tree |
| GroupRuns.CommitAgrees | mls-rs/src/group/mod.rs:2130-2188 | one commit: committer, receivers and joiners end with the same tree, their keys, and all but joiners the commit secret |
| GroupRuns.EventKeeps | mls-rs/src/group/mod.rs:829-884 | every event keeps the invariant that members hold exactly the keys above them that they are not unmerged at |
| GroupRuns.GroupAgrees | mls-rs/src/tree_kem/kem.rs:62-319 | in every run of a group from its founding every commit has all members agree |
| GroupRuns.AnyPathAnyTime | mls-rs/src/tree_kem/kem.rs:244-319 | at every moment of every run, for any path from another member and any answers of the checks: a receiver ends with keys that fit its tree, is refused, or panics, the last exactly under the condition of ShortPathPanicsExactly |
| GroupRuns.RunsExist | mls-rs/src/tree_kem/kem.rs:62-319 | such runs exist: the assumptions are not empty |
| GroupRuns.HonestHashes | mls-rs/src/tree_kem/parent_hash.rs:116-141 | after an honest path no unfiltered position is blank, so its parent hashes go through |
| GroupRuns.EmptyPath | mls-rs/src/tree_kem/kem.rs:264-266 | two members and a path without nodes: refused while their parent is blank, a panic once it is in use |
| GroupRuns.EmptyPathPanics | mls-rs/src/tree_kem/kem.rs:264-266 | in a concrete run that path is refused before the first commit and causes a panic after it |
| HpkeSuites.HpkeSuiteWorks | mls-rs/src/tree_kem/hpke_encryption.rs:52-85 | HPKE over a correct KEM and AEAD is all the tree needs |
| HpkeSuites.AgreementOverHpke | mls-rs/src/tree_kem/kem.rs:62-319 | agreement in every run over any tree of sound KEMs |
| MlsKdfs.LabelBytesInjective | mls-rs/src/group/key_schedule.rs:293-328 | the encoded label determines name, context and transmitted length |
| MlsKdfs.PurposesAreSeparate | mls-rs/src/group/secret_tree.rs:176-202 | no two derivations from one secret feed the KDF the same info |
| SecretRatchets.SecretKeyRatchet.NextMessageKey | mls-rs/src/group/secret_tree.rs:451-487 | one step: key and nonce of the generation and the next secret; nothing changed on a failure, and the secret already replaced when the last generation panics |
| SecretRatchets.SecretKeyRatchet.GetMessageKey | mls-rs/src/group/secret_tree.rs:411-448 | history, window, catching up and the final step, with whatever failures of the provider |
| SecretRatchets.GetKeeps | mls-rs/src/group/secret_tree.rs:411-448 | a request gives the key of its generation, only once, and loses no other key, whatever the provider does |
| SecretRatchets.GetExactly | mls-rs/src/group/secret_tree.rs:411-448 | with a working provider it succeeds if and only if the generation was not given out and is at most 1024 ahead |
| SecretRatchets.PanicsExactly | mls-rs/src/group/secret_tree.rs:411-487 | which requests leave the 32-bit generations, in terms of the ratchet and the faults |
| SecretTrees.SecretTree.Consume | mls-rs/src/group/secret_tree.rs:176-203 | a node is erased and its children derived, or lost when the provider fails |
| SecretTrees.SecretTree.ConsumeAbove | mls-rs/src/group/secret_tree.rs:217-219 | the path is consumed from the root down |
| SecretTrees.SecretTree.TakeLeafRatchet | mls-rs/src/group/secret_tree.rs:206-235 | takes the ratchets of a leaf out of the tree, deriving them if needed |
| SecretTrees.SecretTree.NextMessageKey | mls-rs/src/group/secret_tree.rs:238-251 | the sender's request: any failure drops the ratchets of the leaf |
| SecretTrees.SecretTree.MessageKeyGeneration | mls-rs/src/group/secret_tree.rs:254-271 | the receiver's request: only a panic drops the ratchets of the leaf |
| SecretTreeLaws.AnswerKeeps | mls-rs/src/group/secret_tree.rs:206-271 | the invariant over tree, ratchets and keys given out survives every request and every failure |
| SecretTreeLaws.KeysAreRight | mls-rs/src/group/secret_tree.rs:206-271 | in every run every key is the one of section 9 of RFC 9420 for its leaf, type and generation |
| SecretTreeLaws.KeysComeOnce | mls-rs/src/group/secret_tree.rs:206-271 | in every run no key comes out twice |
| SecretTreeLaws.MembersAgree | mls-rs/src/group/secret_tree.rs:206-271 | two members agree on every key, whatever each asked before |
| SecretTreeLaws.AnswersExactly | mls-rs/src/group/secret_tree.rs:238-271 | with a working provider exactly which requests succeed, and which generation a sender gets, in terms of the keys given out |
| SecretTreeLaws.FailureKeepsLeafExactly | mls-rs/src/group/secret_tree.rs:238-271 | a failed request leaves its leaf usable if and only if it is a receiver's, no derivation fails from the node known above the leaf down to the ratchets, and the ratchet asked for does not panic, all in terms of the state and the faults |
| SecretTreeLaws.TakeExactly | mls-rs/src/group/secret_tree.rs:206-235 | the ratchets of a usable leaf are reached if and only if no fault lies between them and the node known above |
| SecretTreeLaws.FailedNextIsFinal | mls-rs/src/group/secret_tree.rs:244-250 | after a failed sender's request every later request for the leaf is refused |
| SecretTreeLaws.LostForever | mls-rs/src/group/secret_tree.rs:211-225 | a leaf without a known node above it stays refused |
| RatchetCodec.RatchetRoundTrip | mls-rs/src/group/secret_tree.rs:337-385 | a stored ratchet comes back, in every order of its history, if and only if the history is filed by generation |
| RatchetCodec.GoodIsStored | mls-rs/src/group/secret_tree.rs:337-385 | which it is for every ratchet that requests lead to |
| Witnesses.HpkeIsInhabited | mls-rs-crypto-hpke/src/hpke.rs:94-115 | concrete primitives that satisfy what is assumed of them, and an HPKE instance that seals |

## Left out

- Crypto providers (AWS-LC, OpenSSL, RustCrypto, CryptoKit, the rest of WebCrypto): foreign code, present only as the functions and laws above.
- Secrecy, authenticity and forward secrecy: the properties are functional; no attacker is modelled.
- X.509, signatures, leaf and key package validation, tree hashes and parent hashes: values are not modelled; what they answer is a parameter of `EncapPath` and `Checks` of a receiver, honest commits are taken to pass them, and the context a path is sealed under is a parameter.
- Proposal rules, message framing, transcript hashes, the key schedule of an epoch and Welcome encryption: a commit is its edits to the tree and its path; a joiner is handed its path secret.
- External commits and re-init: not modelled; the committer is a member.
- Client, builder, FFI, UniFFI, benches and examples: configuration and bindings.
- The length of the node vector: trees have an explicit height, and `Grow` and `Shrink` stand for `insert_leaf` and `trim`; index validation errors do not arise and `next_empty_leaf` is any free leaf.
- A tree whose leaf count is not a power of two: the tree arithmetic is only called with powers of two.
- RatchetTrees.NodeVec.IsResolutionEmpty: models `find_in_resolution` only without a node to find, the way it is used.
- SecretRatchets.SecretKeyRatchet.NextMessageKey: the three derivations of a step fail together, since nothing is written before the last of them.
- Secret tree without the `out_of_order` feature: only the variant with a history is modelled.
- GroupState.RetentionTheorem: epoch ids are bounded by the engine's signed 64-bit rows; `delete_group` and its cascade, the SQL text and the other stores are not modelled.
- Grease.LeafNode.Grease: with the `grease` feature on; the variant without it does nothing.
- `String`, `Cow`, `Box` and other forwarding codecs, and `with` modules other than `byte_vec`: nothing new beyond the schemas here.
- Tree maps nested inside other types: `TreeMap.dfy` treats a tree map as a whole message; inside a schema a map stands for one that is encoded in the order read.
- Two live repositories of one group: opening one replaces the one before.
- Providers that answer two members differently: a derivation of the ratchet tree that succeeds for the committer succeeds for every receiver.
- Token handling of the derive macro: its meaning is modelled, not its syntax trees.
- Overflow of `usize` in size computations: sizes are unbounded numbers.
- Zeroization, Debug, serde, async variants: no effect on results.
