# ArbiPic photo-attestation Verifier, modelled in Dafny

This project models `Verifier`, the Stylus (Arbitrum, Rust) contract of ArbiPic. The contract is an on-chain registry. For each photo hash it stores the block timestamp of registration, the registering address, and a caller-supplied commitment. The client is meant to compute that commitment as `keccak256(photoHash ‖ secret)`; `verify_photo` stores it unchecked. Later, anyone who holds the secret can prove ownership with a read-only check.

Files:

- `words.dfy` (`Words`): the host's fixed-width values as bounded naturals. These are `U256`, the 160-bit `Address`, the `u64` block timestamp and `Byte`.
- `big_endian.dfy` (`BigEndian`): `to_be_bytes::<32>` / `from_be_bytes` as `ToBE` / `FromBE`, with round-trip, injectivity and concatenation lemmas.
- `commitment.dfy` (`Commitment`): the 64-byte commitment buffer and `compute_commitment`. Keccak-256 is a parameter of type `seq<Byte> -> Digest`, where a `Digest` is 32 bytes.
- `verifier.dfy` (`Verifier`): the storage as an immutable `VerifierState` with every public entrypoint as a pure function, plus per-call properties.
- `history.dfy` (`History`): sequences of transactions, what the counters mean over them, and the conditional count invariant.

Modelling conventions:

- A key missing from a storage map reads as zero. An unwritten photo hash therefore reads as `(0, zero address, 0)`, and an unknown address has count `0`.
- `msg_sender` and `block_timestamp` are explicit parameters. The timestamp is a `u64` widened to `U256`, as `U256::from(block_timestamp())` does.
- The query entrypoints are functions of the state. So "`verify_zk_proof` never changes state" holds by construction.

### Code versus intended behaviour

The intended behaviour is a write-once registry whose counters match its records. The contract as written differs, and the model follows the contract:

- `verify_photo` has no already-registered check. A second call on the same photo hash overwrites the record (last writer wins) and still increments both counters. There is no `AlreadyRegistered` error; no entrypoint ever returns an error.
- `init` has no guard. A second call replaces the contract owner and resets the total count to 0, but keeps both maps.
- "Total count equals the number of verified photo hashes" is therefore not an invariant. It is proved only CONDITIONALLY, in `History.CountsMatchRegistrations`: `init` runs once, first, on fresh storage; after that, each call registers a not-yet-verified photo hash at a positive timestamp. Each condition is needed. `History.ReinitBreaksCount` drops the single `init`, `History.DuplicateRegistrationBreaksCount` drops the fresh photo hash, and `History.ZeroTimestampBreaksCount` drops the positive timestamp.
- For a photo hash that was never registered, `verify_zk_proof` compares the recomputed commitment with 0; it does not return false outright. `Verifier.AbsentRecordProofNeedsZeroDigest` shows that, for every hash function, the check accepts exactly when the digest of the buffer is 32 zero bytes. `Verifier.AbsentRecordCanPassProof` exhibits a hash function for which it does.
- A record written at block timestamp 0 reads as "not verified", and it can overwrite a verified record. The monotonicity lemma `History.VerifiedStaysVerified` therefore requires positive timestamps.

## Model

| member | source | states |
|---|---|---|
| BigEndian.ToBE | contracts/src/lib.rs:98 | the big-endian encoding of a value has exactly the requested number of bytes (32 for a U256) |
| BigEndian.FromBE | contracts/src/lib.rs:106 | decoding n big-endian bytes gives a value below 256^n, so 32 bytes always decode to a valid U256 |
| BigEndian.Pow256Of32 | contracts/src/lib.rs:98 | 32 bytes hold exactly the range 0 .. 2^256 - 1 of a U256 |
| BigEndian.FromToBE | contracts/src/lib.rs:98-102 | decoding the big-endian encoding of any value that fits gives back that value |
| BigEndian.ToFromBE | contracts/src/lib.rs:105-106 | re-encoding a decoded byte string gives back the same bytes, so from_be_bytes loses nothing |
| BigEndian.ToBEInjective | contracts/src/lib.rs:98-102 | two values that fit in n bytes with equal encodings are equal |
| BigEndian.FromBEAppend | contracts/src/lib.rs:96-102 | the value of a concatenation is the first part shifted by the second part's length plus the second part |
| Commitment.Preimage | contracts/src/lib.rs:96-102 | the hashed buffer is 64 bytes; its first 32 bytes decode to the photo hash and its last 32 to the secret |
| Commitment.PreimageValue | contracts/src/lib.rs:96-102 | read as one number, the buffer is photoHash * 2^256 + secret |
| Commitment.PreimageInjective | contracts/src/lib.rs:96-102 | distinct (photo hash, secret) pairs give distinct buffers |
| Commitment.ComputeCommitment | contracts/src/lib.rs:93-107 | the commitment's 32 big-endian bytes are exactly the Keccak digest of the 64-byte buffer |
| Commitment.CommitmentsAgreeIffDigestsAgree | contracts/src/lib.rs:104-106 | two commitments are equal exactly when the two Keccak digests are equal |
| Commitment.CommitmentMatchesIffDigestMatches | contracts/src/lib.rs:104-106 | a commitment equals a stored value exactly when the digest equals that value's big-endian bytes |
| Verifier.GetAttestation | contracts/src/lib.rs:72-79 | get_attestation returns the stored (timestamp, owner, commitment) of a written photo hash and (0, zero address, 0) for any other |
| Verifier.IsVerified | contracts/src/lib.rs:110-112 | is_verified holds exactly when the timestamp get_attestation reads is nonzero |
| Verifier.GetOwnerOf | contracts/src/lib.rs:115-117 | get_owner_of is the owner field get_attestation reads, so the zero address for an unwritten photo hash |
| Verifier.GetOwnerPhotoCount | contracts/src/lib.rs:120-122 | get_owner_photo_count returns the stored count of an address, and 0 for an address with none |
| Verifier.GetPhotoCount | contracts/src/lib.rs:125-127 | get_photo_count returns the stored total count |
| Verifier.GetContractOwner | contracts/src/lib.rs:130-132 | get_contract_owner returns the stored contract owner |
| Verifier.VerifyZkProof | contracts/src/lib.rs:82-90 | the proof check succeeds exactly when the Keccak digest of (photo hash, secret) equals the 32-byte encoding of the stored commitment |
| Verifier.ProofComparesStoredCommitment | contracts/src/lib.rs:82-90 | verify_zk_proof holds exactly when the recomputed commitment equals the commitment field get_attestation reads |
| Verifier.UnwrittenHashReadsZero | contracts/src/lib.rs:72-90 | an unwritten photo hash reads as (0, zero address, 0) and is not verified; its proof check is "commitment == 0", not false |
| Verifier.AbsentRecordProofNeedsZeroDigest | contracts/src/lib.rs:82-90 | for every hash function, the proof check on an unwritten photo hash accepts exactly when the digest of its 64-byte buffer is 32 zero bytes |
| Verifier.AbsentRecordCanPassProof | contracts/src/lib.rs:82-90 | on fresh storage, a hash function with a zero digest makes the proof check accept a photo hash nobody registered |
| Verifier.Init | contracts/src/lib.rs:42-46 | init makes the caller the contract owner and sets the total count to 0; every attestation and every address's count stays as it was |
| Verifier.VerifyPhoto | contracts/src/lib.rs:50-69 | verify_photo returns the block timestamp and stores (timestamp, caller, commitment) under the photo hash; the total count and the caller's count go up by exactly 1 whether or not the hash was registered; other hashes, other addresses' counts and the contract owner are unchanged |
| Verifier.LastWriterWins | contracts/src/lib.rs:55-66 | registering a photo hash twice keeps the second (timestamp, caller, commitment) and counts two photos |
| Verifier.OwnershipRoundTrip | contracts/src/lib.rs:82-107 | after registering the commitment of (photo hash, secret), verify_zk_proof with that secret returns true |
| Verifier.ForgedProofIsCollision | contracts/src/lib.rs:86-106 | when the stored commitment is that of one secret, any other secret that passes the proof check has a different 64-byte buffer with the same Keccak digest |
| History.StepKeepsHeadroom | contracts/src/lib.rs:61-66 | each transaction raises the total count and every address's count by at most 1, so it uses at most one unit of the headroom left to every counter |
| History.OwnerCountCountsCalls | contracts/src/lib.rs:61-62 | over any transaction sequence, an address's count grows by exactly its number of verify_photo calls; init never lowers it |
| History.PhotoCountCountsCalls | contracts/src/lib.rs:65-66 | over a sequence without init, the total count grows by exactly the number of verify_photo calls, duplicates included |
| History.UnwrittenHashKeepsRecord | contracts/src/lib.rs:55-58 | a photo hash no transaction writes keeps its record; from fresh storage it reads as all zeros |
| History.VerifiedStaysVerified | contracts/src/lib.rs:50-58 | once verified, a photo hash stays verified while every block timestamp is positive |
| History.InitOnDeployedIsConsistent | contracts/src/lib.rs:42-46 | init on fresh storage leaves both counters equal to the number of verified hashes (in total and per owner) |
| History.FreshVerifyAddsHash | contracts/src/lib.rs:55-58 | verify_photo at a positive timestamp adds exactly that hash to the verified set and to the caller's owned set, and removes it from every other address's owned set |
| History.FreshVerifyKeepsConsistent | contracts/src/lib.rs:50-66 | verify_photo of a not-yet-verified hash at a positive timestamp keeps both counters equal to the number of verified hashes |
| History.FreshRunKeepsConsistent | contracts/src/lib.rs:50-66 | a sequence of such registrations keeps the counters consistent |
| History.CountsMatchRegistrations | contracts/src/lib.rs:42-66 | CONDITIONAL: if init runs once on fresh storage and every later call registers a not-yet-verified hash at a positive timestamp, then the total count is the number of verified hashes and each address's count is the number of verified hashes it owns |
| History.DistinctHashesMakeFreshRun | contracts/src/lib.rs:55-58 | registrations of pairwise distinct, unverified photo hashes at positive timestamps meet the freshness condition |
| History.DuplicateRegistrationBreaksCount | contracts/src/lib.rs:50-66 | registering one photo hash twice gives a total count of 2 with one verified hash, so the counters are inconsistent |
| History.ZeroTimestampBreaksCount | contracts/src/lib.rs:50-66 | a registration at block timestamp 0 counts one photo while no photo hash reads as verified, so the counters are inconsistent |
| History.ReinitBreaksCount | contracts/src/lib.rs:42-46 | a second init resets the total count to 0 while a registered photo stays verified, and it replaces the contract owner |

## Left out

- `contracts/src/main.rs`: an entry-point and ABI-export shim with no logic.
- Keccak-256 internals: the hash is a parameter that returns 32 bytes. Only the 64-byte buffer fed to it is modelled. Collision resistance is not assumed; `Verifier.ForgedProofIsCollision` states what a forgery would need instead.
- Stylus SDK plumbing is not modelled: the storage/entrypoint/public macros, ABI encoding, the `Result<_, Vec<u8>>` wrappers and `vm()` access. No entrypoint ever returns `Err`, so results are plain values. The caller and the block timestamp are parameters.
- Verifier.VerifyPhoto: requires both counters to be below 2^256 - 1. `lib.rs:62` and `lib.rs:66` do not say whether `count + U256::from(1)` wraps or panics at the top of the range, so that case is not modelled.
- History.Run: requires the same headroom for every transaction in the sequence, for the same reason.
- Client-side secret generation, randomness, IPFS upload, wallet and UI are not part of this contract. Generating a commitment and checking it locally happen on the client, not in the contract; `Commitment.ComputeCommitment` is the computation both sides share.
- A write-once rule, an `AlreadyRegistered` error and a "false for absent records" rule are not modelled as behaviour, because the contract implements none of them (see "Code versus intended behaviour").
