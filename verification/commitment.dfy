/**
  The ownership commitment of the Verifier contract: Keccak-256 of the photo
  hash and the secret, each written as 32 big-endian bytes, read back as a
  big-endian U256.

  Keccak-256 itself (the original Keccak padding used by Ethereum, not FIPS 202
  SHA3-256) is not modelled: every definition that needs it takes the hash
  function as a parameter, constrained only to return 32 bytes.
 */
module Commitment {
  import opened Words
  import opened BigEndian

  /** A 32-byte hash output. */
  type Digest = s: seq<Byte> | |s| == 32 witness ToBE(0, 32)

  /** The host's Keccak-256, supplied from outside the model. */
  type Keccak256 = seq<Byte> -> Digest

  /** The 64-byte buffer hashed for a commitment: photo hash first, secret second. */
  function Preimage(photoHash: U256, secret: U256): (data: seq<Byte>)
    ensures |data| == 64
    ensures FromBE(data[..32]) == photoHash
    ensures FromBE(data[32..]) == secret
  {
    Pow256Of32();
    FromToBE(photoHash, 32);
    FromToBE(secret, 32);
    var data := ToBE(photoHash, 32) + ToBE(secret, 32);
    assert data[..32] == ToBE(photoHash, 32);
    assert data[32..] == ToBE(secret, 32);
    data
  }

  /** The buffer read as one 512-bit number is the photo hash shifted above the secret. */
  lemma PreimageValue(photoHash: U256, secret: U256)
    ensures FromBE(Preimage(photoHash, secret)) == photoHash * TWO_256 + secret
  {
    var data := Preimage(photoHash, secret);
    assert data == data[..32] + data[32..];
    FromBEAppend(data[..32], data[32..]);
    Pow256Of32();
  }

  /** Different (photo hash, secret) pairs never produce the same buffer. */
  lemma PreimageInjective(h1: U256, s1: U256, h2: U256, s2: U256)
    requires Preimage(h1, s1) == Preimage(h2, s2)
    ensures h1 == h2 && s1 == s2
  {
  }

  /** The commitment of a photo hash and a secret: its 32 big-endian bytes are the digest of the buffer. */
  function ComputeCommitment(keccak: Keccak256, photoHash: U256, secret: U256): (c: U256)
    ensures ToBE(c, 32) == keccak(Preimage(photoHash, secret))
  {
    var digest := keccak(Preimage(photoHash, secret));
    Pow256Of32();
    ToFromBE(digest);
    FromBE(digest)
  }

  /** Two commitments agree exactly when the two digests agree. */
  lemma CommitmentsAgreeIffDigestsAgree(keccak: Keccak256, h1: U256, s1: U256, h2: U256, s2: U256)
    ensures ComputeCommitment(keccak, h1, s1) == ComputeCommitment(keccak, h2, s2)
        <==> keccak(Preimage(h1, s1)) == keccak(Preimage(h2, s2))
  {
  }

  /**
    A commitment matches a stored value exactly when the digest equals that
    value's big-endian bytes.
   */
  lemma CommitmentMatchesIffDigestMatches(keccak: Keccak256, photoHash: U256, secret: U256, stored: U256)
    ensures ComputeCommitment(keccak, photoHash, secret) == stored
        <==> keccak(Preimage(photoHash, secret)) == ToBE(stored, 32)
  {
    Pow256Of32();
    if keccak(Preimage(photoHash, secret)) == ToBE(stored, 32) {
      ToBEInjective(ComputeCommitment(keccak, photoHash, secret), stored, 32);
    }
  }
}
