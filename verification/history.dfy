/**
  Sequences of state-changing calls to the Verifier contract, and what the
  counters mean over them.

  Because `verify_photo` has no duplicate guard and `init` can be called again,
  "the total count equals the number of verified photo hashes" is NOT an
  invariant of the contract. It holds only CONDITIONALLY: when `init` runs
  once, first, on fresh storage, every later call is `verify_photo` with a
  positive timestamp, and each of those names a photo hash not yet verified
  (FreshRunKeepsConsistent, CountsMatchRegistrations). Each condition is
  needed: ReinitBreaksCount drops the single `init`,
  DuplicateRegistrationBreaksCount the fresh photo hash, and
  ZeroTimestampBreaksCount the positive timestamp.
 */
module History {
  import opened Words
  import opened Verifier

  /** A state-changing entrypoint with its arguments. */
  datatype Call = InitCall | VerifyPhotoCall(photoHash: U256, zkCommitment: U256)

  /** One transaction: the call, its sender and the block timestamp it runs under. */
  datatype Tx = Tx(sender: Address, blockTimestamp: U64, call: Call)

  /** Room for n more increments of every counter without leaving the U256 range. */
  predicate Headroom(st: VerifierState, n: nat)
  {
    && st.photoCount + n <= MAX_U256
    && forall o :: o in st.ownerPhotoCount ==> st.ownerPhotoCount[o] + n <= MAX_U256
  }

  /** Apply one transaction. */
  function Step(st: VerifierState, tx: Tx): VerifierState
    requires Headroom(st, 1)
  {
    match tx.call
    case InitCall => Init(st, tx.sender)
    case VerifyPhotoCall(h, c) => VerifyPhoto(st, tx.sender, tx.blockTimestamp, h, c).state
  }

  /** One step raises every counter by at most 1, so it uses up at most one increment of headroom. */
  lemma StepKeepsHeadroom(st: VerifierState, tx: Tx, n: nat)
    requires Headroom(st, n + 1)
    ensures GetPhotoCount(Step(st, tx)) <= GetPhotoCount(st) + 1
    ensures forall o :: GetOwnerPhotoCount(Step(st, tx), o) <= GetOwnerPhotoCount(st, o) + 1
    ensures Headroom(Step(st, tx), n)
  {
  }

  /** Apply transactions in order. */
  function Run(st: VerifierState, txs: seq<Tx>): VerifierState
    requires Headroom(st, |txs|)
    decreases |txs|
  {
    if txs == [] then st
    else
      StepKeepsHeadroom(st, txs[0], |txs| - 1);
      Run(Step(st, txs[0]), txs[1..])
  }

  /** The number of `verify_photo` transactions sent by owner. */
  function VerifyCallsBy(txs: seq<Tx>, owner: Address): nat
    decreases |txs|
  {
    if txs == [] then 0
    else (if txs[0].call.VerifyPhotoCall? && txs[0].sender == owner then 1 else 0) + VerifyCallsBy(txs[1..], owner)
  }

  /** The photo hashes whose stored timestamp is nonzero. */
  function VerifiedHashes(st: VerifierState): set<U256>
  {
    set h | h in st.attestations && IsVerified(st, h)
  }

  /** The verified photo hashes whose stored owner is owner. */
  function OwnedHashes(st: VerifierState, owner: Address): set<U256>
  {
    set h | h in st.attestations && IsVerified(st, h) && GetOwnerOf(st, h) == owner
  }

  /** The counters agree with the records: the intended invariant of a write-once registry. */
  ghost predicate Consistent(st: VerifierState)
  {
    && GetPhotoCount(st) == |VerifiedHashes(st)|
    && forall o :: GetOwnerPhotoCount(st, o) == |OwnedHashes(st, o)|
  }

  /**
    Every transaction is a `verify_photo` with a positive timestamp for a
    photo hash that is not verified when it runs.
   */
  predicate FreshRun(st: VerifierState, txs: seq<Tx>)
    requires Headroom(st, |txs|)
    decreases |txs|
  {
    if txs == [] then true
    else
      var tx := txs[0];
      StepKeepsHeadroom(st, tx, |txs| - 1);
      && tx.call.VerifyPhotoCall?
      && tx.blockTimestamp > 0
      && !IsVerified(st, tx.call.photoHash)
      && FreshRun(Step(st, tx), txs[1..])
  }

  // ---------------------------------------------------------------- counters over any run

  /** An address's count grows by exactly the number of `verify_photo` calls it sent; `init` never lowers it. */
  lemma {:induction false} OwnerCountCountsCalls(st: VerifierState, txs: seq<Tx>, owner: Address)
    requires Headroom(st, |txs|)
    ensures GetOwnerPhotoCount(Run(st, txs), owner) == GetOwnerPhotoCount(st, owner) + VerifyCallsBy(txs, owner)
    decreases |txs|
  {
    if txs != [] {
      StepKeepsHeadroom(st, txs[0], |txs| - 1);
      OwnerCountCountsCalls(Step(st, txs[0]), txs[1..], owner);
    }
  }

  /** Without `init`, the total count grows by exactly one per transaction, duplicates included. */
  lemma {:induction false} PhotoCountCountsCalls(st: VerifierState, txs: seq<Tx>)
    requires Headroom(st, |txs|)
    requires forall i :: 0 <= i < |txs| ==> txs[i].call.VerifyPhotoCall?
    ensures GetPhotoCount(Run(st, txs)) == GetPhotoCount(st) + |txs|
    decreases |txs|
  {
    if txs != [] {
      StepKeepsHeadroom(st, txs[0], |txs| - 1);
      PhotoCountCountsCalls(Step(st, txs[0]), txs[1..]);
    }
  }

  /** A photo hash no transaction writes keeps its record; from fresh storage it reads as all zeros. */
  lemma {:induction false} UnwrittenHashKeepsRecord(st: VerifierState, txs: seq<Tx>, photoHash: U256)
    requires Headroom(st, |txs|)
    requires forall i :: 0 <= i < |txs| && txs[i].call.VerifyPhotoCall? ==> txs[i].call.photoHash != photoHash
    ensures GetAttestation(Run(st, txs), photoHash) == GetAttestation(st, photoHash)
    ensures st == DEPLOYED ==> GetAttestation(Run(st, txs), photoHash) == UNSET
    decreases |txs|
  {
    if txs != [] {
      StepKeepsHeadroom(st, txs[0], |txs| - 1);
      UnwrittenHashKeepsRecord(Step(st, txs[0]), txs[1..], photoHash);
    }
  }

  /** Once verified, a photo hash stays verified as long as every block timestamp is positive. */
  lemma {:induction false} VerifiedStaysVerified(st: VerifierState, txs: seq<Tx>, photoHash: U256)
    requires Headroom(st, |txs|)
    requires forall i :: 0 <= i < |txs| ==> txs[i].blockTimestamp > 0
    requires IsVerified(st, photoHash)
    ensures IsVerified(Run(st, txs), photoHash)
    decreases |txs|
  {
    if txs != [] {
      StepKeepsHeadroom(st, txs[0], |txs| - 1);
      VerifiedStaysVerified(Step(st, txs[0]), txs[1..], photoHash);
    }
  }

  // ---------------------------------------------------------------- the conditional count invariant

  /** `init` on fresh storage leaves the counters consistent. */
  lemma InitOnDeployedIsConsistent(sender: Address)
    ensures Consistent(Init(DEPLOYED, sender))
  {
  }

  /** A `verify_photo` at a positive timestamp adds exactly that hash to the verified set. */
  lemma FreshVerifyAddsHash(st: VerifierState, sender: Address, t: U64, photoHash: U256, c: U256)
    requires Headroom(st, 1)
    requires t > 0
    ensures var st' := VerifyPhoto(st, sender, t, photoHash, c).state;
            && VerifiedHashes(st') == VerifiedHashes(st) + {photoHash}
            && OwnedHashes(st', sender) == OwnedHashes(st, sender) + {photoHash}
            && forall o :: o != sender ==> OwnedHashes(st', o) == OwnedHashes(st, o) - {photoHash}
  {
  }

  /** A `verify_photo` for an unverified hash at a positive timestamp keeps the counters consistent. */
  lemma FreshVerifyKeepsConsistent(st: VerifierState, sender: Address, t: U64, photoHash: U256, c: U256)
    requires Headroom(st, 1)
    requires Consistent(st)
    requires t > 0 && !IsVerified(st, photoHash)
    ensures Consistent(VerifyPhoto(st, sender, t, photoHash, c).state)
  {
    var st' := VerifyPhoto(st, sender, t, photoHash, c).state;
    FreshVerifyAddsHash(st, sender, t, photoHash, c);
    assert photoHash !in VerifiedHashes(st);
    forall o ensures GetOwnerPhotoCount(st', o) == |OwnedHashes(st', o)| {
      assert photoHash !in OwnedHashes(st, o);
      if o != sender {
        assert OwnedHashes(st', o) == OwnedHashes(st, o);
      }
    }
  }

  /** A fresh run keeps consistent counters consistent. */
  lemma {:induction false} FreshRunKeepsConsistent(st: VerifierState, txs: seq<Tx>)
    requires Headroom(st, |txs|)
    requires Consistent(st)
    requires FreshRun(st, txs)
    ensures Consistent(Run(st, txs))
    decreases |txs|
  {
    if txs != [] {
      StepKeepsHeadroom(st, txs[0], |txs| - 1);
      var tx := txs[0];
      FreshVerifyKeepsConsistent(st, tx.sender, tx.blockTimestamp, tx.call.photoHash, tx.call.zkCommitment);
      FreshRunKeepsConsistent(Step(st, tx), txs[1..]);
    }
  }

  /**
    CONDITIONAL: if `init` runs once, first, on fresh storage, and every later
    transaction registers a not-yet-verified photo hash at a positive
    timestamp, then the total count is the number of verified photo hashes and
    each address's count is the number of verified photo hashes it owns.
   */
  lemma CountsMatchRegistrations(deployer: Address, txs: seq<Tx>)
    requires Headroom(Init(DEPLOYED, deployer), |txs|)
    requires FreshRun(Init(DEPLOYED, deployer), txs)
    ensures var st := Run(Init(DEPLOYED, deployer), txs);
            && GetPhotoCount(st) == |VerifiedHashes(st)|
            && forall o :: GetOwnerPhotoCount(st, o) == |OwnedHashes(st, o)|
  {
    InitOnDeployedIsConsistent(deployer);
    FreshRunKeepsConsistent(Init(DEPLOYED, deployer), txs);
  }

  /**
    Pairwise distinct photo hashes, none verified at the start, all sent at
    positive timestamps, make a fresh run.
   */
  lemma {:induction false} DistinctHashesMakeFreshRun(st: VerifierState, txs: seq<Tx>)
    requires Headroom(st, |txs|)
    requires forall i :: 0 <= i < |txs| ==> txs[i].call.VerifyPhotoCall? && txs[i].blockTimestamp > 0
    requires forall i :: 0 <= i < |txs| && txs[i].call.VerifyPhotoCall? ==> !IsVerified(st, txs[i].call.photoHash)
    requires forall i, j :: 0 <= i < j < |txs| && txs[i].call.VerifyPhotoCall? && txs[j].call.VerifyPhotoCall?
               ==> txs[i].call.photoHash != txs[j].call.photoHash
    ensures FreshRun(st, txs)
    decreases |txs|
  {
    if txs != [] {
      StepKeepsHeadroom(st, txs[0], |txs| - 1);
      var st' := Step(st, txs[0]);
      var rest := txs[1..];
      forall i | 0 <= i < |rest| && rest[i].call.VerifyPhotoCall?
        ensures !IsVerified(st', rest[i].call.photoHash)
      {
        assert rest[i] == txs[i + 1];
      }
      forall i, j | 0 <= i < j < |rest| && rest[i].call.VerifyPhotoCall? && rest[j].call.VerifyPhotoCall?
        ensures rest[i].call.photoHash != rest[j].call.photoHash
      {
        assert rest[i] == txs[i + 1] && rest[j] == txs[j + 1];
      }
      DistinctHashesMakeFreshRun(st', rest);
    }
  }

  // ---------------------------------------------------------------- why the invariant is only conditional

  /** Registering the same photo hash twice counts two photos for one verified hash. */
  lemma DuplicateRegistrationBreaksCount(sender: Address, t: U64, photoHash: U256, c1: U256, c2: U256)
    requires t > 0
    ensures var st1 := VerifyPhoto(Init(DEPLOYED, sender), sender, t, photoHash, c1).state;
            var st2 := VerifyPhoto(st1, sender, t, photoHash, c2).state;
            && GetPhotoCount(st2) == 2
            && VerifiedHashes(st2) == {photoHash}
            && !Consistent(st2)
  {
  }

  /** A registration at block timestamp 0 counts a photo that does not read as verified. */
  lemma ZeroTimestampBreaksCount(sender: Address, photoHash: U256, c: U256)
    ensures var st := VerifyPhoto(Init(DEPLOYED, sender), sender, 0, photoHash, c).state;
            && GetPhotoCount(st) == 1
            && VerifiedHashes(st) == {}
            && !Consistent(st)
  {
    var st := VerifyPhoto(Init(DEPLOYED, sender), sender, 0, photoHash, c).state;
    assert VerifiedHashes(st) == {};
  }

  /** A second `init` resets the total count while the registered photo stays verified. */
  lemma ReinitBreaksCount(deployer: Address, sender: Address, t: U64, photoHash: U256, c: U256)
    requires t > 0
    ensures var st1 := VerifyPhoto(Init(DEPLOYED, deployer), sender, t, photoHash, c).state;
            var st2 := Init(st1, sender);
            && GetPhotoCount(st2) == 0
            && IsVerified(st2, photoHash)
            && GetContractOwner(st2) == sender
            && !Consistent(st2)
  {
    var st1 := VerifyPhoto(Init(DEPLOYED, deployer), sender, t, photoHash, c).state;
    var st2 := Init(st1, sender);
    assert photoHash in VerifiedHashes(st2);
  }
}
