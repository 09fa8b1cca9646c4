/**
 `on_transaction_approved`: the transaction is signed. If it is for the staking contract and the staker's signature
 proof in its data is still the empty one, the proof is created first, written into the transaction in place, and its
 signature is returned, too. The cryptographic functions are parameters.
 */
module TransactionApproval {
  import opened AddressText
  import opened Buffers
  import opened Cursors
  import Layout
  import opened Machine
  import opened ParsedTransaction
  import opened Protocol
  import opened PublicKeys
  import opened SignatureProof
  import opened SignTransaction
  import Staking
  import opened Transaction
  import opened Wire

  /** A key pair: what it signs, and the point of the public key. */
  datatype Key = Key(sign: Bytes -> Signature, w: Point)

  /** The request says what it wants from the staking contract but leaves the staker's proof to the device. */
  predicate ProofMissing(f: Fields) {
    && f.parties.senderType != ACCOUNT_TYPE_STAKING && f.parties.recipientType == ACCOUNT_TYPE_STAKING
    && var a := Staking.TakeAction(f.parties.data);
       a.Ok? && a.value.proof.Some? && IsEmptyDefault(a.value.proof.value)
  }

  /** The same transaction with another proof. */
  function WithProof(f: Fields, proof: Proof): Fields
    requires Staking.TakeAction(f.parties.data).Ok?
  {
    var a := Staking.TakeAction(f.parties.data).value;
    f.(parties := f.parties.(data := Staking.PutAction(Staking.Action(a.body, Some(proof)))))
  }

  /** What is displayed was parsed from what was received. */
  predicate UnderReview(st: Session, addressOf: PublicKey -> Address) {
    Outcome(st.version, st.received, addressOf, Zeroed()) == Ok(st.parsed)
  }

  /** The proof that the device creates: signed is the transaction as it was received, with the empty proof. */
  function CreatedProof(s: Bytes, key: Key): Proof {
    Proof(PublicKeyOf(key.w), key.sign(s))
  }

  /** The transaction whose signature is returned. */
  function SignedTransaction(st: Session, key: Key): Bytes
    requires Supported(st.version) && TakeFields(st.version, st.received).Ok?
  {
    var f := TakeFields(st.version, st.received).value;
    if ProofMissing(f) then
      FieldsExact(st.version, st.received);
      ProofReplaced(st.version, f, CreatedProof(st.received, key));
      Serialize(st.version, WithProof(f, CreatedProof(st.received, key)))
    else st.received
  }

  /** The signature of the transaction, and that of the staker if it was created. */
  function Response(st: Session, key: Key): Bytes
    requires Supported(st.version) && TakeFields(st.version, st.received).Ok?
  {
    key.sign(SignedTransaction(st, key))
    + if ProofMissing(TakeFields(st.version, st.received).value) then key.sign(st.received) else []
  }

  // ---------------------------------------------------------------------------------------------------------------
  // Replacing the proof

  /** The bytes of a transaction with other ones for the key and the signature of a proof that ends at `end`. */
  function Patched(s: Bytes, end: nat, proof: Proof): Bytes
    requires PROOF_LENGTH <= end <= |s|
  {
    s[..end - 97] + proof.publicKey + s[end - 65..end - 64] + proof.signature + s[end..]
  }

  /** Replacing the proof of the fields is overwriting 32 and 64 bytes of the transaction; everything else stays. */
  lemma ProofReplaced(version: u8, f: Fields, proof: Proof)
    requires WellFormed(version, f) && Staking.TakeAction(f.parties.data).Ok?
    requires Staking.TakeAction(f.parties.data).value.proof.Some?
    ensures WellFormed(version, WithProof(f, proof)) && DataEnd(WithProof(f, proof)) == DataEnd(f)
    ensures PROOF_LENGTH <= DataEnd(f) <= |Serialize(version, f)|
    ensures Serialize(version, WithProof(f, proof)) == Patched(Serialize(version, f), DataEnd(f), proof)
  {
    var a := Staking.TakeAction(f.parties.data).value;
    Staking.PutTakenAction(f.parties.data);
    var body := Staking.PutBody(a.body);
    var p := f.parties;
    var tail := (p.sender + ([p.senderType] + (p.recipient + [p.recipientType])))
                + (PutAmounts(f.amounts) + PutTrailer(version, f.trailer));
    var front := PutU16(|p.data|) + body;
    SerializedWithProof(version, f, body, a.proof.value, front, tail);
    SerializedWithProof(version, WithProof(f, proof), body, proof, front, tail);
    PatchedParts(front, tail, a.proof.value, proof);
  }

  /** A serialised transaction whose data end with a proof. */
  lemma SerializedWithProof(version: u8, f: Fields, body: Bytes, proof: Proof, front: Bytes, tail: Bytes)
    requires WellFormed(version, f) && f.parties.data == body + PutProof(proof)
    requires front == PutU16(|f.parties.data|) + body
    requires tail == (f.parties.sender + ([f.parties.senderType] + (f.parties.recipient + [f.parties.recipientType])))
                     + (PutAmounts(f.amounts) + PutTrailer(version, f.trailer))
    ensures Serialize(version, f) == front + PutProof(proof) + tail && DataEnd(f) == |front| + PROOF_LENGTH
  {
    var p := f.parties;
    Regroup(PutU16(|p.data|), body, PutProof(proof),
            p.sender + ([p.senderType] + (p.recipient + [p.recipientType])),
            PutAmounts(f.amounts) + PutTrailer(version, f.trailer));
  }

  lemma Regroup(a: Bytes, b: Bytes, c: Bytes, d: Bytes, e: Bytes)
    ensures (a + ((b + c) + d)) + e == (a + b) + c + (d + e)
  {
  }

  lemma PatchedParts(front: Bytes, tail: Bytes, before: Proof, after: Proof)
    ensures var s := front + PutProof(before) + tail;
            Patched(s, |front| + PROOF_LENGTH, after) == front + PutProof(after) + tail
  {
    var s, end := front + PutProof(before) + tail, |front| + PROOF_LENGTH;
    assert s[..end - 97] == front + [0] && s[end - 65..end - 64] == [0] && s[end..] == tail;
  }

  /** The data with another proof are data of the same kind. */
  lemma ActionWithProof(f: Fields, proof: Proof)
    requires Staking.TakeAction(f.parties.data).Ok? && Staking.TakeAction(f.parties.data).value.proof.Some?
    ensures var a := Staking.TakeAction(f.parties.data).value;
            && f.parties.data == Staking.PutAction(a) && a.Valid() && !a.body.Add?
            && Staking.TakeAction(WithProof(f, proof).parties.data) == Ok(Staking.Action(a.body, Some(proof)))
  {
    Staking.PutTakenAction(f.parties.data);
    Staking.TakePutAction(Staking.Action(Staking.TakeAction(f.parties.data).value.body, Some(proof)));
  }

  /** Accepted fields for which the proof is missing describe a transaction to the staking contract. */
  lemma MissingDescribed(version: u8, s: Bytes, addressOf: PublicKey -> Address, init: Parsed)
    returns (f: Fields, a: Staking.Action)
    requires Outcome(version, s, addressOf, init).Ok? && ProofMissing(TakeFields(version, s).value)
    ensures f == TakeFields(version, s).value && Ok(a) == Staking.TakeAction(f.parties.data)
    ensures WellFormed(version, f) && Describes(version, f, StakingIncoming(a)) && s == Serialize(version, f)
    ensures Outcome(version, s, addressOf, init) == Ok(DisplayOf(version, f, StakingIncoming(a), addressOf, init))
  {
    var kind;
    f, kind := AcceptedSerialized(version, s, addressOf, init);
    FieldsRoundTrip(version, f);
    a := Staking.TakeAction(f.parties.data).value;
    Staking.TakePutAction(kind.action);
  }

  /** What is shown when the proof is that of a known staker. */
  function WithStaker(shown: Parsed, staker: Address, sender: Address): Parsed {
    shown.(staking := shown.staking.(stakerAddress := if staker == sender then "" else TextOf(staker)))
  }

  /** Once the proof is created the display differs in the staker only. */
  lemma DisplayWithProof(version: u8, f: Fields, a: Staking.Action, proof: Proof,
                         addressOf: PublicKey -> Address, init: Parsed)
    requires Ok(a) == Staking.TakeAction(f.parties.data) && a.proof.Some? && !IsEmptyDefault(proof)
    requires PROOF_LENGTH <= DataEnd(f) == DataEnd(WithProof(f, proof)) && !a.body.Add?
    ensures IncomingDisplay(WithProof(f, proof), Staking.Action(a.body, Some(proof)), addressOf, init)
         == WithStaker(IncomingDisplay(f, a, addressOf, init), addressOf(proof.publicKey), f.parties.sender)
  {
  }

  /**
   The transaction with the created proof is parsed to what the user has approved, but for the staker, who is named
   exactly if the address of the key is not the sender.
   */
  lemma SignedParsesAsApproved(st: Session, key: Key, addressOf: PublicKey -> Address)
    requires UnderReview(st, addressOf) && ProofMissing(TakeFields(st.version, st.received).value)
    requires !IsEmptyDefault(CreatedProof(st.received, key))
    ensures var sender := TakeFields(st.version, st.received).value.parties.sender;
            var after := Outcome(st.version, SignedTransaction(st, key), addressOf, Zeroed());
            && after == Ok(WithStaker(st.parsed, addressOf(PublicKeyOf(key.w)), sender))
            && (after.value.staking.stakerAddress == "" <==> addressOf(PublicKeyOf(key.w)) == sender)
  {
    var f, a := MissingDescribed(st.version, st.received, addressOf, Zeroed());
    var proof := CreatedProof(st.received, key);
    ActionWithProof(f, proof);
    ProofReplaced(st.version, f, proof);
    var g, b := WithProof(f, proof), Staking.Action(a.body, Some(proof));
    SerializedAccepted(st.version, g, StakingIncoming(b), addressOf, Zeroed());
    DisplayWithProof(st.version, f, a, proof, addressOf, CommonDisplay(st.version, f, Zeroed()));
    TextInjective(addressOf(proof.publicKey), f.parties.sender);
  }

  function EmptyProof(): Proof {
    Proof(seq(32, _ => 0), seq(64, _ => 0))
  }

  /** `signed` with the empty proof is `s`. */
  ghost predicate EmptiedTo(version: u8, signed: Bytes, s: Bytes) {
    var g := TakeFields(version, signed);
    && g.Ok? && Staking.TakeAction(g.value.parties.data).Ok?
    && WellFormed(version, WithProof(g.value, EmptyProof()))
    && Serialize(version, WithProof(g.value, EmptyProof())) == s
  }

  /** Putting the empty proof back gives the bytes that the staker's signature is for. */
  lemma StakerSignedWithoutProof(st: Session, key: Key, addressOf: PublicKey -> Address)
    requires UnderReview(st, addressOf) && ProofMissing(TakeFields(st.version, st.received).value)
    ensures EmptiedTo(st.version, SignedTransaction(st, key), st.received)
  {
    var f, a := MissingDescribed(st.version, st.received, addressOf, Zeroed());
    var proof := CreatedProof(st.received, key);
    ProofReplaced(st.version, f, proof);
    FieldsRoundTrip(st.version, WithProof(f, proof));
    ActionWithProof(f, proof);
    ProofReset(f, a, proof);
  }

  /** The fields are the original ones once the empty proof is put back. */
  lemma ProofReset(f: Fields, a: Staking.Action, proof: Proof)
    requires Staking.TakeAction(f.parties.data) == Ok(a) && a.proof.Some? && IsEmptyDefault(a.proof.value)
    ensures Staking.TakeAction(WithProof(f, proof).parties.data).Ok?
    ensures WithProof(WithProof(f, proof), EmptyProof()) == f
  {
    var empty := EmptyProof();
    ActionWithProof(f, proof);
    assert a.proof.value.publicKey == empty.publicKey && a.proof.value.signature == empty.signature;
    assert a == Staking.Action(a.body, Some(empty));
  }

  /** However it was split into chunks, a transaction that is put up for approval is reviewed as a whole. */
  lemma RequestReviewed(st: Session, path: seq<u32>, version: u8, parts: seq<Bytes>, addressOf: PublicKey -> Address)
    requires 1 <= |path| <= MAX_BIP32_PATH_LENGTH && parts != []
    requires AllAnswered(Stepper(addressOf), st, Request(Header(path, version), parts))
    ensures var now := After(Stepper(addressOf), st, Request(Header(path, version), parts));
            UnderReview(now, addressOf) && now.path == path && now.version == version && now.received == Concat(parts)
  {
    ChunkingTransparent(st, path, version, parts, addressOf);
  }

  // ---------------------------------------------------------------------------------------------------------------
  // On the device

  /** What is under review was split into fields. */
  lemma ReviewedFields(st: Session, addressOf: PublicKey -> Address)
    requires UnderReview(st, addressOf)
    ensures Supported(st.version) && TakeFields(st.version, st.received).Ok?
    ensures var f := TakeFields(st.version, st.received).value;
            WellFormed(st.version, f) && st.received == Serialize(st.version, f)
  {
    FieldsExact(st.version, st.received);
  }

  /** The struct tells whether there is a proof, and its pointers point to it in the received transaction. */
  lemma ReviewedProof(st: Session, addressOf: PublicKey -> Address)
    requires UnderReview(st, addressOf) && st.parsed.transactionType == STAKING_INCOMING && st.parsed.staking.hasProof
    ensures var f := TakeFields(st.version, st.received).value;
            var a := Staking.TakeAction(f.parties.data);
            && f.parties.senderType != ACCOUNT_TYPE_STAKING && f.parties.recipientType == ACCOUNT_TYPE_STAKING
            && a.Ok? && a.value.proof.Some? && PROOF_LENGTH <= DataEnd(f) <= |st.received|
            && st.parsed.staking.proof == PointersTo(DataEnd(f))
            && a.value.proof.value.publicKey == st.received[DataEnd(f) - 97..DataEnd(f) - 65]
            && a.value.proof.value.signature == st.received[DataEnd(f) - 64..DataEnd(f)]
  {
    var f, kind := AcceptedSerialized(st.version, st.received, addressOf, Zeroed());
    FieldsRoundTrip(st.version, f);
    var a := kind.action;
    Staking.TakePutAction(a);
    Staking.ActionLength(a);
    ProofInPlace(st.version, f, a);
  }

  lemma ProofInPlace(version: u8, f: Fields, a: Staking.Action)
    requires WellFormed(version, f) && Staking.TakeAction(f.parties.data) == Ok(a) && a.proof.Some?
    ensures var s, end := Serialize(version, f), DataEnd(f);
            && PROOF_LENGTH <= end <= |s|
            && a.proof.value.publicKey == s[end - 97..end - 65] && a.proof.value.signature == s[end - 64..end]
  {
    ActionWithProof(f, a.proof.value);
    ProofReplaced(version, f, a.proof.value);
    assert WithProof(f, a.proof.value) == f;
    var s, end, p := Serialize(version, f), DataEnd(f), a.proof.value;
    assert s == Patched(s, end, p);
    PatchedSlices(s, end, p);
  }

  lemma PatchedSlices(s: Bytes, end: nat, p: Proof)
    requires PROOF_LENGTH <= end <= |s|
    ensures Patched(s, end, p)[end - 97..end - 65] == p.publicKey && Patched(s, end, p)[end - 64..end] == p.signature
  {
  }

  /** Without a proof in the struct none is missing. */
  lemma NoProofReviewed(st: Session, addressOf: PublicKey -> Address)
    requires UnderReview(st, addressOf)
    requires !(st.parsed.transactionType == STAKING_INCOMING && st.parsed.staking.hasProof)
    ensures !ProofMissing(TakeFields(st.version, st.received).value)
  {
    if ProofMissing(TakeFields(st.version, st.received).value) {
      var f, a := MissingDescribed(st.version, st.received, addressOf, Zeroed());
      Staking.ActionLength(a);
      Staking.PutTakenAction(f.parties.data);
    }
  }

  /** The first `i` bytes of the coordinate turned round. */
  function FirstTurned(w: Point, i: nat): (s: Bytes)
    requires i <= 32
    ensures |s| == i
  {
    if i == 0 then [] else FirstTurned(w, i - 1) + [w[65 - i]]
  }

  lemma {:induction false} FirstTurnedAt(w: Point, i: nat, k: nat)
    requires k < i <= 32
    ensures FirstTurned(w, i)[k] == w[64 - k]
  {
    if k < i - 1 {
      FirstTurnedAt(w, i - 1, k);
    }
  }

  lemma KeyFromTurned(w: Point)
    ensures PublicKeyOf(w)[..31] == FirstTurned(w, 32)[..31] && FirstTurned(w, 32)[31] == w[33]
    ensures PublicKeyOf(w)[31] == if w[32] % 2 == 1 then SetTopBit(w[33]) else w[33]
  {
    forall k | 0 <= k < 32
      ensures FirstTurned(w, 32)[k] == w[64 - k]
    {
      FirstTurnedAt(w, 32, k);
    }
  }

  /** Writes the encoded key byte by byte, from the temporary point in the other buffer. */
  method CopyPublicKey(io: array<u8>, at: nat, rawTx: array<u8>, offset: nat, ghost w: Point)
    requires io != rawTx && at + 65 <= io.Length && io[at..at + 65] == w && offset + 32 <= rawTx.Length
    modifies rawTx
    ensures rawTx[..] == old(rawTx[..offset]) + PublicKeyOf(w) + old(rawTx[offset + 32..])
  {
    hide PublicKeyOf;
    ghost var orig := rawTx[..];
    var i := 0;
    while i < 32
      invariant i <= 32 && rawTx[..] == orig[..offset] + FirstTurned(w, i) + orig[offset + i..]
    {
      assert io[at + (64 - i)] == io[at..at + 65][64 - i];
      rawTx[offset + i] := io[at + (64 - i)];
      i := i + 1;
    }
    KeyFromTurned(w);
    assert io[at + 32] == io[at..at + 65][32];
    assert FirstTurned(w, 32) == FirstTurned(w, 32)[..31] + [w[33]];
    assert rawTx[offset + 31] == w[33];
    if io[at + 32] % 2 == 1 {
      rawTx[offset + 31] := SetTopBit(rawTx[offset + 31]);
    }
    assert PublicKeyOf(w) == FirstTurned(w, 32)[..31] + [rawTx[offset + 31]];
  }

  /** Signs what is there and writes the proof over the empty one, with the APDU buffer as temporary memory. */
  method CreateProof(rawTx: array<u8>, length: nat, proof: ProofPointers, ghost end: nat, io: array<u8>, at: nat,
                     key: Key)
    requires rawTx != io && PROOF_LENGTH <= end <= length <= rawTx.Length && proof == PointersTo(end)
    requires at + 65 <= io.Length && 128 <= io.Length
    modifies rawTx, io
    ensures rawTx[..length] == Patched(old(rawTx[..length]), end, CreatedProof(old(rawTx[..length]), key))
    ensures rawTx[length..] == old(rawTx[length..])
  {
    hide PublicKeyOf, Patched;
    ghost var orig := rawTx[..];
    ghost var created := CreatedProof(rawTx[..length], key);
    Store(io, 0, key.sign(rawTx[..length]));
    Store(rawTx, proof.signature.offset, io[..64]);
    assert rawTx[..] == orig[..end - 64] + created.signature + orig[end..];
    Store(io, at, key.w);
    CopyPublicKey(io, at, rawTx, proof.publicKey.offset, key.w);
    TwoWrites(orig, end, created, rawTx[..], length);
  }

  lemma TwoWrites(orig: Bytes, end: nat, created: Proof, now: Bytes, length: nat)
    requires PROOF_LENGTH <= end <= length <= |orig|
    requires var mid := orig[..end - 64] + created.signature + orig[end..];
             now == mid[..end - 97] + created.publicKey + mid[end - 65..]
    ensures |now| == |orig| && now[..length] == Patched(orig[..length], end, created) && now[length..] == orig[length..]
  {
  }

  /** The struct and the bytes it points to tell whether the proof is still to be created, and where it stands. */
  method IsProofMissing(ctx: TransactionContext, ghost addressOf: PublicKey -> Address) returns (missing: bool)
    requires ctx.Valid() && UnderReview(ctx.Current(), addressOf)
    ensures TakeFields(ctx.transactionVersion, ctx.Current().received).Ok?
    ensures missing <==> ProofMissing(TakeFields(ctx.transactionVersion, ctx.Current().received).value)
    ensures missing ==>
              var end := DataEnd(TakeFields(ctx.transactionVersion, ctx.Current().received).value);
              PROOF_LENGTH <= end <= ctx.rawTxLength && ctx.parsed.staking.proof == PointersTo(end)
  {
    hide Outcome;
    ghost var st := ctx.Current();
    ReviewedFields(st, addressOf);
    ghost var f := TakeFields(st.version, st.received).value;
    var staking := ctx.parsed.staking;
    if ctx.parsed.transactionType != STAKING_INCOMING || !staking.hasProof {
      NoProofReviewed(st, addressOf);
      return false;
    }
    ReviewedProof(st, addressOf);
    InMemory(ctx.rawTx, ctx.rawTxLength, DataEnd(f));
    missing := IsEmptyDefaultSignatureProof(ctx.rawTx, staking.proof,
                                            Staking.TakeAction(f.parties.data).value.proof.value);
  }

  /** What is signed for a transaction whose proof is missing, and where the staker's signature stands in it. */
  lemma PatchedSigned(st: Session, key: Key, addressOf: PublicKey -> Address, end: nat)
    requires UnderReview(st, addressOf) && TakeFields(st.version, st.received).Ok?
    requires ProofMissing(TakeFields(st.version, st.received).value)
    requires end == DataEnd(TakeFields(st.version, st.received).value) && PROOF_LENGTH <= end <= |st.received|
    ensures Supported(st.version)
    ensures SignedTransaction(st, key) == Patched(st.received, end, CreatedProof(st.received, key))
    ensures |SignedTransaction(st, key)| == |st.received|
    ensures SignedTransaction(st, key)[end - 64..end] == key.sign(st.received)
  {
    ReviewedFields(st, addressOf);
    var f, proof := TakeFields(st.version, st.received).value, CreatedProof(st.received, key);
    ProofReplaced(st.version, f, proof);
    PatchedSlices(st.received, end, proof);
  }

  lemma UnpatchedSigned(st: Session, key: Key, addressOf: PublicKey -> Address)
    requires UnderReview(st, addressOf) && TakeFields(st.version, st.received).Ok?
    requires !ProofMissing(TakeFields(st.version, st.received).value)
    ensures Supported(st.version) && SignedTransaction(st, key) == st.received
  {
  }

  /** Creates the proof if it is missing. */
  method CreateMissingProof(ctx: TransactionContext, io: array<u8>, at: nat, key: Key,
                            ghost addressOf: PublicKey -> Address)
    returns (created: bool)
    requires ctx.Valid() && ctx.rawTx != io && at + 65 <= io.Length && 128 <= io.Length
    requires UnderReview(ctx.Current(), addressOf)
    modifies ctx.rawTx, io
    ensures ctx.rawTx[..ctx.rawTxLength] == SignedTransaction(old(ctx.Current()), key)
    ensures ctx.rawTx[ctx.rawTxLength..] == old(ctx.rawTx[ctx.rawTxLength..])
    ensures created <==> ProofMissing(TakeFields(ctx.transactionVersion, old(ctx.Current()).received).value)
    ensures created ==> Signs(ctx, key.sign(old(ctx.Current()).received))
  {
    hide UnderReview, SignedTransaction, ProofMissing, Patched, CreatedProof;
    ghost var st := ctx.Current();
    created := IsProofMissing(ctx, addressOf);
    if created {
      ghost var end := DataEnd(TakeFields(st.version, st.received).value);
      CreateProof(ctx.rawTx, ctx.rawTxLength, ctx.parsed.staking.proof, end, io, at, key);
      PatchedSigned(st, key, addressOf, end);
      InMemory(ctx.rawTx, ctx.rawTxLength, end);
    } else {
      UnpatchedSigned(st, key, addressOf);
    }
  }

  /** The signature stands where the struct points to. */
  ghost predicate Signs(ctx: TransactionContext, signature: Signature)
    reads ctx, ctx.rawTx, ctx.parsed
  {
    && ctx.parsed.staking.proof.signature.At?
    && ctx.parsed.staking.proof.signature.offset + 64 <= ctx.rawTx.Length
    && Slice(ctx.rawTx, ctx.parsed.staking.proof.signature, 64) == signature
  }

  lemma InMemory(memory: array<u8>, length: nat, end: nat)
    requires PROOF_LENGTH <= end <= length <= memory.Length
    ensures memory[..length][end - 97..end - 65] == Slice(memory, PointersTo(end).publicKey, 32)
    ensures memory[..length][end - 64..end] == Slice(memory, PointersTo(end).signature, 64)
  {
  }

  /** Writes the signature of the transaction, and behind it that of the staker if it was created. */
  method WriteSignatures(rawTx: array<u8>, length: nat, stakerSignature: Pointer, created: bool, io: array<u8>,
                         key: Key)
    returns (dataLength: u16)
    requires rawTx != io && 128 <= io.Length && length <= rawTx.Length
    requires created ==> stakerSignature.At? && stakerSignature.offset + 64 <= rawTx.Length
    modifies io
    ensures dataLength == if created then 128 else 64
    ensures io[..dataLength] == key.sign(rawTx[..length]) + if created then Slice(rawTx, stakerSignature, 64) else []
  {
    Store(io, 0, key.sign(rawTx[..length]));
    dataLength := 64;
    if created {
      Store(io, dataLength, Slice(rawTx, stakerSignature, 64));
      dataLength := dataLength + 64;
    }
  }

  /**
   Signs the reviewed transaction. Returned are 64 bytes, or 128 if the proof was missing; the rest of the memory behind
   the transaction stays as it was.
   */
  method OnTransactionApproved(ctx: TransactionContext, io: array<u8>, at: nat, key: Key,
                               ghost addressOf: PublicKey -> Address)
    returns (dataLength: u16)
    requires ctx.Valid() && ctx.rawTx != io && at + 65 <= io.Length && 128 <= io.Length
    requires UnderReview(ctx.Current(), addressOf)
    modifies ctx.rawTx, io
    ensures ctx.rawTx[..ctx.rawTxLength] == SignedTransaction(old(ctx.Current()), key)
    ensures ctx.rawTx[ctx.rawTxLength..] == old(ctx.rawTx[ctx.rawTxLength..])
    ensures dataLength == 64 || dataLength == 128
    ensures io[..dataLength] == Response(old(ctx.Current()), key)
  {
    var createdStakerSignature := CreateMissingProof(ctx, io, at, key, addressOf);
    dataLength := WriteSignatures(ctx.rawTx, ctx.rawTxLength, ctx.parsed.staking.proof.signature,
                                  createdStakerSignature, io, key);
  }

  // ---------------------------------------------------------------------------------------------------------------
  // From the request to the signatures

  /**
   What is returned for a request that was answered with success, as a matter of the transaction `s` that its parts
   form: the signature of `s`, or if the staker's proof was missing the signature of `s` with the proof written into
   it, which parses to what was displayed with the staker named unless it is the sender, and the staker's signature of
   `s` itself.
   */
  lemma RequestSigned(st: Session, path: seq<u32>, version: u8, parts: seq<Bytes>, key: Key,
                      addressOf: PublicKey -> Address)
    requires 1 <= |path| <= MAX_BIP32_PATH_LENGTH && parts != []
    requires AllAnswered(Stepper(addressOf), st, Request(Header(path, version), parts))
    ensures Supported(version) && TakeFields(version, Concat(parts)).Ok?
    ensures Signed(After(Stepper(addressOf), st, Request(Header(path, version), parts)), version, Concat(parts), key,
                   addressOf)
  {
    RequestReviewed(st, path, version, parts, addressOf);
    ReviewSigned(After(Stepper(addressOf), st, Request(Header(path, version), parts)), key, addressOf);
  }

  /** The bytes of a transaction whose data end at `end` with the staker's key and signature of `s` in their places. */
  function WithStakerProof(s: Bytes, end: nat, key: Key): Bytes
    requires PROOF_LENGTH <= end <= |s|
  {
    s[..end - 97] + PublicKeyOf(key.w) + s[end - 65..end - 64] + key.sign(s) + s[end..]
  }

  /** The data are for a staker and end with nothing but zeros where the proof has to be. */
  predicate LacksProof(p: Parties) {
    && p.senderType != 3 && p.recipientType == 3 && |p.data| > 98 && p.data[0] != 6
    && forall i :: |p.data| - 98 <= i < |p.data| ==> p.data[i] == 0
  }

  lemma ProofMissingAt(version: u8, f: Fields)
    requires Layout.Accepts(version, f)
    ensures ProofMissing(f) <==> LacksProof(f.parties)
  {
    hide IsEmptyDefault, Staking.TakeAction;
    var data := f.parties.data;
    Layout.ActionTaken(data);
    if Layout.IsStakingData(data) && data[0] != 6 {
      Layout.ZeroProof(data);
    }
  }

  ghost predicate Signed(now: Session, version: u8, s: Bytes, key: Key, addressOf: PublicKey -> Address)
    requires Supported(version) && TakeFields(version, s).Ok?
  {
    var f := TakeFields(version, s).value;
    var end, publicKey := 2 + |f.parties.data|, PublicKeyOf(key.w);
    && now.version == version && now.received == s && Outcome(version, s, addressOf, Zeroed()) == Ok(now.parsed)
    && if !LacksProof(f.parties) then Response(now, key) == key.sign(s)
       else
         && PROOF_LENGTH <= end <= |s|
         && Response(now, key) == key.sign(WithStakerProof(s, end, key)) + key.sign(s)
         && (IsEmptyDefault(Proof(publicKey, key.sign(s)))
             || Outcome(version, WithStakerProof(s, end, key), addressOf, Zeroed())
                == Ok(WithStaker(now.parsed, addressOf(publicKey), f.parties.sender)))
  }

  lemma ReviewSigned(now: Session, key: Key, addressOf: PublicKey -> Address)
    requires UnderReview(now, addressOf)
    ensures Signed(now, now.version, now.received, key, addressOf)
  {
    hide Layout.FieldsAt, Layout.Accepts, Signed, ProofMissing, LacksProof;
    var f := Layout.AcceptedAcceptable(now.version, now.received, addressOf, Zeroed());
    ProofMissingAt(now.version, f);
    SignedByNeed(now, f, key, addressOf);
  }

  lemma SignedByNeed(now: Session, f: Fields, key: Key, addressOf: PublicKey -> Address)
    requires UnderReview(now, addressOf) && Supported(now.version) && TakeFields(now.version, now.received) == Ok(f)
    requires ProofMissing(f) <==> LacksProof(f.parties)
    ensures Signed(now, now.version, now.received, key, addressOf)
  {
    hide LacksProof;
    var s, proof := now.received, CreatedProof(now.received, key);
    if ProofMissing(f) {
      FieldsExact(now.version, s);
      ProofReplaced(now.version, f, proof);
      assert WithStakerProof(s, DataEnd(f), key) == Patched(s, DataEnd(f), proof);
      if !IsEmptyDefault(proof) {
        SignedParsesAsApproved(now, key, addressOf);
      }
    } else {
      assert key.sign(s) + [] == key.sign(s);
    }
  }

  /**
   The same for the bytes that a host sends: the APDUs of a request, the first one with the path and the version in
   front of its part.
   */
  lemma HostRequestSigned(st: Session, path: seq<u32>, version: u8, parts: seq<Bytes>, key: Key,
                          addressOf: PublicKey -> Address)
    requires 1 <= |path| <= MAX_BIP32_PATH_LENGTH && parts != [] && Sendable(Header(path, version), parts)
    requires AllAnswered(Stepper(addressOf), st, CommandsOf(HostRequest(0x04, Header(path, version), parts)))
    ensures Supported(version) && TakeFields(version, Concat(parts)).Ok?
    ensures var f := TakeFields(version, Concat(parts)).value;
            Layout.FieldsAt(version, Concat(parts), f) && Layout.Accepts(version, f)
    ensures Signed(After(Stepper(addressOf), st, CommandsOf(HostRequest(0x04, Header(path, version), parts))),
                   version, Concat(parts), key, addressOf)
  {
    hide Layout.FieldsAt, Layout.Accepts, Outcome, Signed;
    HostRequestDecoded(0x04, Header(path, version), parts);
    RequestSigned(st, path, version, parts, key, addressOf);
    ChunkingTransparent(st, path, version, parts, addressOf);
    var f := Layout.AcceptedAcceptable(version, Concat(parts), addressOf, Zeroed());
  }

  /** Whatever is put up for approval is what was parsed from the received transaction. */
  lemma StepReviews(st: Session, command: Command, addressOf: PublicKey -> Address)
    ensures var (next, reply) := Step(st, command, addressOf);
            reply.review ==> UnderReview(next, addressOf)
  {
  }

  /** The main loop for any APDUs, one after the other in the APDU buffer. */
  method ProcessAll(ctx: TransactionContext, io: array<u8>, apdus: seq<Bytes>, addressOf: PublicKey -> Address)
    returns (review: bool)
    requires ctx.Valid() && ctx.rawTx != io && OFFSET_CDATA <= io.Length < 0x1_0000
    requires forall k :: 0 <= k < |apdus| ==> |apdus[k]| <= io.Length
    modifies ctx, ctx.rawTx, ctx.parsed, io
    ensures ctx.Valid() && ctx.Current() == After(Stepper(addressOf), old(ctx.Current()), CommandsOf(apdus))
    ensures review == (apdus != [] && LastReply(Stepper(addressOf), old(ctx.Current()), CommandsOf(apdus)).review)
    ensures review ==> UnderReview(ctx.Current(), addressOf)
  {
    hide Stepper, UnderReview;
    ghost var st, step := ctx.Current(), Stepper(addressOf);
    review := false;
    var k := 0;
    while k < |apdus|
      invariant 0 <= k <= |apdus| && ctx.Valid()
      invariant ctx.Current() == After(step, st, CommandsOf(apdus[..k]))
      invariant review == (k > 0 && LastReply(step, st, CommandsOf(apdus[..k])).review)
      invariant review ==> UnderReview(ctx.Current(), addressOf)
    {
      ghost var command := CommandOf(apdus[k], |apdus[k]|);
      var sw;
      sw, review := ReceiveApdu(ctx, io, apdus[k], addressOf);
      assert CommandsOf(apdus[..k + 1]) == CommandsOf(apdus[..k]) + [command] by {
        assert apdus[..k + 1][..k] == apdus[..k];
      }
      RunSnoc(step, st, CommandsOf(apdus[..k]), command);
      k := k + 1;
    }
    assert apdus[..k] == apdus;
  }

  /**
   Any APDUs, and the approval if the last one asks for it. What is returned is the response for the context that the
   commands lead to.
   */
  method Serve(ctx: TransactionContext, io: array<u8>, apdus: seq<Bytes>, at: nat, key: Key,
               addressOf: PublicKey -> Address)
    returns (approved: bool, dataLength: u16)
    requires ctx.Valid() && ctx.rawTx != io && at + 65 <= io.Length && 128 <= io.Length < 0x1_0000
    requires forall k :: 0 <= k < |apdus| ==> |apdus[k]| <= io.Length
    modifies ctx, ctx.rawTx, ctx.parsed, io
    ensures approved == (apdus != [] && LastReply(Stepper(addressOf), old(ctx.Current()), CommandsOf(apdus)).review)
    ensures approved ==>
              var now := After(Stepper(addressOf), old(ctx.Current()), CommandsOf(apdus));
              UnderReview(now, addressOf) && dataLength as int <= io.Length && io[..dataLength] == Response(now, key)
  {
    hide Stepper, UnderReview, Response;
    dataLength := 0;
    approved := ProcessAll(ctx, io, apdus, addressOf);
    if approved {
      dataLength := OnTransactionApproved(ctx, io, at, key, addressOf);
    }
  }

  /** An APDU arrives in the buffer and is processed. */
  method ReceiveApdu(ctx: TransactionContext, io: array<u8>, apdu: Bytes, addressOf: PublicKey -> Address)
    returns (sw: StatusWord, startAsyncReply: bool)
    requires ctx.Valid() && ctx.rawTx != io && OFFSET_CDATA <= io.Length < 0x1_0000 && |apdu| <= io.Length
    modifies ctx, ctx.rawTx, ctx.parsed, io
    ensures ctx.Valid()
    ensures (ctx.Current(), Reply(sw, startAsyncReply))
         == Stepper(addressOf)(old(ctx.Current()), CommandOf(apdu, |apdu|))
    ensures startAsyncReply ==> UnderReview(ctx.Current(), addressOf)
  {
    hide Step, UnderReview, CommandOf;
    Store(io, 0, apdu);
    CommandInBuffer(apdu, io[..]);
    StepReviews(ctx.Current(), CommandOf(apdu, |apdu|), addressOf);
    sw, startAsyncReply := ctx.ProcessCommand(io, |apdu|, addressOf);
  }
}
