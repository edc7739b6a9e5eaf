/**
  The Verifier contract: an on-chain registry that binds a photo hash to the
  block timestamp, the caller and a commitment, and answers ownership proofs
  against that commitment.

  Storage is an immutable value. A key missing from a map reads as zero, the
  way an unwritten storage slot does. The caller (`msg_sender`) and the block
  timestamp are explicit parameters, and Keccak-256 is passed to the one
  entrypoint that hashes.
 */
module Verifier {
  import opened Words
  import opened BigEndian
  import opened Commitment

  /** One photo's record: all three fields are zero while the photo hash was never written. */
  datatype PhotoAttestation = PhotoAttestation(verifiedAt: U256, owner: Address, zkCommitment: U256)

  /** What `get_attestation` reads for a photo hash that was never written. */
  const UNSET := PhotoAttestation(0, ZERO_ADDRESS, 0)

  /** The contract's storage. */
  datatype VerifierState = VerifierState(
    attestations: map<U256, PhotoAttestation>,
    ownerPhotoCount: map<Address, U256>,
    owner: Address,
    photoCount: U256)

  /** What `verify_photo` leaves behind: the new storage and the returned timestamp. */
  datatype Receipt = Receipt(state: VerifierState, verifiedAt: U256)

  /** Freshly deployed storage: every slot is zero. */
  const DEPLOYED := VerifierState(map[], map[], ZERO_ADDRESS, 0)

  // ---------------------------------------------------------------- queries

  /** `get_attestation`: the stored record, or all zeros. */
  function GetAttestation(st: VerifierState, photoHash: U256): (a: PhotoAttestation)
    ensures photoHash !in st.attestations ==> a == UNSET
    ensures photoHash in st.attestations ==> a == st.attestations[photoHash]
  {
    if photoHash in st.attestations then st.attestations[photoHash] else UNSET
  }

  /** `is_verified`: whether the stored timestamp is nonzero. */
  function IsVerified(st: VerifierState, photoHash: U256): (verified: bool)
    ensures verified <==> GetAttestation(st, photoHash).verifiedAt > 0
  {
    photoHash in st.attestations && st.attestations[photoHash].verifiedAt > 0
  }

  /** `get_owner_of`: the stored owner, or the zero address. */
  function GetOwnerOf(st: VerifierState, photoHash: U256): (owner: Address)
    ensures owner == GetAttestation(st, photoHash).owner
  {
    if photoHash in st.attestations then st.attestations[photoHash].owner else ZERO_ADDRESS
  }

  /** `get_owner_photo_count`: the stored count of an address, or 0. */
  function GetOwnerPhotoCount(st: VerifierState, owner: Address): (count: U256)
    ensures owner !in st.ownerPhotoCount ==> count == 0
    ensures owner in st.ownerPhotoCount ==> count == st.ownerPhotoCount[owner]
  {
    if owner in st.ownerPhotoCount then st.ownerPhotoCount[owner] else 0
  }

  /** `get_photo_count`: the stored total count. */
  function GetPhotoCount(st: VerifierState): (count: U256)
    ensures count == st.photoCount
  {
    st.photoCount
  }

  /** `get_contract_owner`: the stored contract owner. */
  function GetContractOwner(st: VerifierState): (owner: Address)
    ensures owner == st.owner
  {
    st.owner
  }

  /**
    `verify_zk_proof`: recompute the commitment from the secret and compare it
    with the stored one. There is no existence check, so for a hash never
    written the comparison is against zero.
   */
  function VerifyZkProof(st: VerifierState, keccak: Keccak256, photoHash: U256, secret: U256): (ok: bool)
    ensures ok <==> keccak(Preimage(photoHash, secret)) == ToBE(GetAttestation(st, photoHash).zkCommitment, 32)
  {
    var stored := if photoHash in st.attestations then st.attestations[photoHash].zkCommitment else 0;
    CommitmentMatchesIffDigestMatches(keccak, photoHash, secret, stored);
    ComputeCommitment(keccak, photoHash, secret) == stored
  }

  /** `verify_zk_proof` recomputes the commitment and compares it with the commitment field `get_attestation` reads. */
  lemma ProofComparesStoredCommitment(st: VerifierState, keccak: Keccak256, photoHash: U256, secret: U256)
    ensures VerifyZkProof(st, keccak, photoHash, secret)
        <==> ComputeCommitment(keccak, photoHash, secret) == GetAttestation(st, photoHash).zkCommitment
  {
  }

  /**
    A photo hash that was never written reads as all zeros, is not verified,
    and its proof check compares the commitment with zero: it is not simply false.
   */
  lemma UnwrittenHashReadsZero(st: VerifierState, keccak: Keccak256, photoHash: U256, secret: U256)
    requires photoHash !in st.attestations
    ensures GetAttestation(st, photoHash) == UNSET
    ensures !IsVerified(st, photoHash)
    ensures GetOwnerOf(st, photoHash) == ZERO_ADDRESS
    ensures VerifyZkProof(st, keccak, photoHash, secret) <==> ComputeCommitment(keccak, photoHash, secret) == 0
  {
  }

  /**
    For a hash function whose digest is zero on some buffer, the proof check
    accepts on a freshly deployed contract where nothing was registered.
   */
  lemma AbsentRecordCanPassProof(photoHash: U256, secret: U256)
    ensures VerifyZkProof(DEPLOYED, _ => ToBE(0, 32), photoHash, secret)
  {
    var keccak: Keccak256 := _ => ToBE(0, 32);
    CommitmentMatchesIffDigestMatches(keccak, photoHash, secret, 0);
  }

  /**
    For every hash function, the proof check on a never-written photo hash
    accepts exactly when the digest of the buffer is 32 zero bytes.
   */
  lemma AbsentRecordProofNeedsZeroDigest(st: VerifierState, keccak: Keccak256, photoHash: U256, secret: U256)
    requires photoHash !in st.attestations
    ensures VerifyZkProof(st, keccak, photoHash, secret) <==> keccak(Preimage(photoHash, secret)) == seq(32, _ => 0)
  {
    ToBEZero(32);
  }

  // ---------------------------------------------------------------- updates

  /**
    `init`: make the caller the contract owner and reset the total count.
    Nothing prevents a second call, and the maps are left as they are.
   */
  function Init(st: VerifierState, sender: Address): (st': VerifierState)
    ensures GetContractOwner(st') == sender
    ensures GetPhotoCount(st') == 0
    ensures forall h :: GetAttestation(st', h) == GetAttestation(st, h)
    ensures forall o :: GetOwnerPhotoCount(st', o) == GetOwnerPhotoCount(st, o)
  {
    st.(owner := sender, photoCount := 0)
  }

  /**
    `verify_photo`: record (timestamp, caller, commitment) under the photo hash
    and bump both counters. There is no check for an existing record: a second
    call overwrites it and still counts.
   */
  function VerifyPhoto(st: VerifierState, sender: Address, blockTimestamp: U64,
                       photoHash: U256, zkCommitment: U256): (r: Receipt)
    requires GetPhotoCount(st) < MAX_U256
    requires GetOwnerPhotoCount(st, sender) < MAX_U256
    ensures r.verifiedAt == blockTimestamp
    ensures GetAttestation(r.state, photoHash) == PhotoAttestation(blockTimestamp, sender, zkCommitment)
    ensures forall h :: h != photoHash ==> GetAttestation(r.state, h) == GetAttestation(st, h)
    ensures GetOwnerPhotoCount(r.state, sender) == GetOwnerPhotoCount(st, sender) + 1
    ensures forall o :: o != sender ==> GetOwnerPhotoCount(r.state, o) == GetOwnerPhotoCount(st, o)
    ensures GetPhotoCount(r.state) == GetPhotoCount(st) + 1
    ensures GetContractOwner(r.state) == GetContractOwner(st)
  {
    var timestamp: U256 := blockTimestamp;
    var count := GetOwnerPhotoCount(st, sender);
    var st' := st.(
      attestations := st.attestations[photoHash := PhotoAttestation(timestamp, sender, zkCommitment)],
      ownerPhotoCount := st.ownerPhotoCount[sender := count + 1],
      photoCount := st.photoCount + 1);
    Receipt(st', timestamp)
  }

  // ---------------------------------------------------------------- properties

  /** Registering the same photo hash twice keeps the second record and counts both calls. */
  lemma LastWriterWins(st: VerifierState, photoHash: U256,
                       a: Address, t1: U64, c1: U256, b: Address, t2: U64, c2: U256)
    requires GetPhotoCount(st) + 1 < MAX_U256
    requires GetOwnerPhotoCount(st, a) + 1 < MAX_U256 && GetOwnerPhotoCount(st, b) + 1 < MAX_U256
    ensures var st1 := VerifyPhoto(st, a, t1, photoHash, c1).state;
            var st2 := VerifyPhoto(st1, b, t2, photoHash, c2).state;
            && GetAttestation(st2, photoHash) == PhotoAttestation(t2, b, c2)
            && GetPhotoCount(st2) == GetPhotoCount(st) + 2
            && (a == b ==> GetOwnerPhotoCount(st2, a) == GetOwnerPhotoCount(st, a) + 2)
  {
  }

  /** Whoever registered with the commitment of a secret can prove ownership with that secret. */
  lemma OwnershipRoundTrip(st: VerifierState, keccak: Keccak256, sender: Address, t: U64,
                           photoHash: U256, secret: U256)
    requires GetPhotoCount(st) < MAX_U256 && GetOwnerPhotoCount(st, sender) < MAX_U256
    ensures var st' := VerifyPhoto(st, sender, t, photoHash, ComputeCommitment(keccak, photoHash, secret)).state;
            VerifyZkProof(st', keccak, photoHash, secret)
  {
  }

  /**
    When the stored commitment is that of one secret, any other secret the
    proof check accepts yields two different 64-byte buffers with the same
    Keccak digest: a forged proof is a hash collision.
   */
  lemma ForgedProofIsCollision(st: VerifierState, keccak: Keccak256, photoHash: U256, secret: U256, guess: U256)
    requires GetAttestation(st, photoHash).zkCommitment == ComputeCommitment(keccak, photoHash, secret)
    requires guess != secret
    ensures Preimage(photoHash, secret) != Preimage(photoHash, guess)
    ensures VerifyZkProof(st, keccak, photoHash, guess)
        ==> keccak(Preimage(photoHash, secret)) == keccak(Preimage(photoHash, guess))
  {
  }
}
