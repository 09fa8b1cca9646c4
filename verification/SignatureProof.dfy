/** signature_proof.c: signature proofs, of which only those of a plain ed25519 key are supported. */
module SignatureProof {
  import opened Cursors
  import opened Machine
  import opened ParsedTransaction
  import opened Wire

  datatype Proof = Proof(publicKey: PublicKey, signature: Signature)

  const PROOF_LENGTH := 98

  /** Where the parts of a proof stand that ends at `end`. */
  function PointersTo(end: nat): ProofPointers
    requires end >= PROOF_LENGTH
  {
    ProofPointers(At(end - 97), At(end - 64), 0, 0)
  }

  /** Type and flags, the key, the length of the merkle path and the signature. */
  function PutProof(p: Proof): (s: Bytes)
    ensures |s| == PROOF_LENGTH
  {
    [0] + (p.publicKey + ([0] + (p.signature + [])))
  }

  /** A proof with a type, flags or a merkle path is read as an error. */
  function TakeProof(s: Bytes): Option<Taken<Proof>> {
    if |s| < PROOF_LENGTH || s[0] != 0 || s[33] != 0 then None
    else Some(Taken(Proof(s[1..33], s[34..98]), s[98..]))
  }

  predicate AllZero(s: Bytes) {
    forall i :: 0 <= i < |s| ==> s[i] == 0
  }

  /** The proof that stands for one that is still to be created. */
  predicate IsEmptyDefault(p: Proof) {
    AllZero(p.publicKey) && AllZero(p.signature)
  }

  lemma TakePutProof(p: Proof, rest: Bytes)
    ensures TakeProof(PutProof(p) + rest) == Some(Taken(p, rest))
  {
    var s := PutProof(p) + rest;
    assert s[1..33] == p.publicKey && s[34..98] == p.signature && s[98..] == rest;
  }

  lemma PutTakenProof(s: Bytes)
    requires TakeProof(s).Some?
    ensures var t := TakeProof(s).value; s == PutProof(t.value) + t.rest
  {
  }

  /** The parts of a proof one behind the other. */
  lemma ProofSlices(s: Bytes)
    requires |s| >= PROOF_LENGTH
    ensures s[1..][..32] == s[1..33] && s[1..][32..] == s[33..] && s[33..][1..] == s[34..]
    ensures s[33..][0] == s[33] && s[34..][..64] == s[34..98] && s[34..][64..] == s[98..]
  {
  }

  lemma TooShort(n: nat, s: Bytes)
    requires n > |s|
    ensures TakeBytes(n, s).None?
  {
  }

  /** The four parts that are read one after the other, the last of them if there are enough bytes. */
  lemma PartsRead(s: Bytes, typeAndFlags: Option<Taken<u8>>, publicKey: Option<Taken<Bytes>>,
                  merklePathLength: Option<Taken<u8>>, signature: Option<Taken<Bytes>>)
    requires typeAndFlags == TakeU8(s)
    requires publicKey == if typeAndFlags.Some? then TakeBytes(32, typeAndFlags.value.rest) else None
    requires merklePathLength == if publicKey.Some? then TakeU8(publicKey.value.rest) else None
    requires signature == if merklePathLength.Some? then TakeBytes(64, merklePathLength.value.rest) else None
    ensures signature.None? ==> TakeProof(s).None?
    ensures signature.Some? && (typeAndFlags.value.value != 0 || merklePathLength.value.value != 0) ==>
              TakeProof(s).None?
    ensures signature.Some? && typeAndFlags.value.value == 0 && merklePathLength.value.value == 0 ==>
              && |publicKey.value.value| == 32 && |signature.value.value| == 64
              && TakeProof(s) == Some(Taken(Proof(publicKey.value.value, signature.value.value), signature.value.rest))
    ensures signature.Some? ==> |s| == |signature.value.rest| + PROOF_LENGTH
    ensures signature.Some? ==> |typeAndFlags.value.rest| == |signature.value.rest| + 97
    ensures signature.Some? ==> |merklePathLength.value.rest| == |signature.value.rest| + 64
  {
    if signature.Some? {
      ProofSlices(s);
    }
  }

  /** The pointers of the struct point to the key and the signature of `p`. */
  ghost predicate PointsTo(memory: array<u8>, pointers: ProofPointers, p: Proof)
    reads memory
  {
    && pointers.publicKey.At? && pointers.signature.At?
    && pointers.publicKey.offset + 32 <= memory.Length && pointers.signature.offset + 64 <= memory.Length
    && Slice(memory, pointers.publicKey, 32) == p.publicKey && Slice(memory, pointers.signature, 64) == p.signature
  }

  /** Reads a proof without a copy: the pointers are into the original buffer. */
  method ReadSignatureProof(cursor: Cursor) returns (ok: bool, pointers: ProofPointers, ghost proof: Proof)
    requires cursor.Valid()
    modifies cursor
    ensures cursor.Valid() && cursor.End() == old(cursor.End())
    ensures ok <==> TakeProof(old(cursor.Rest())).Some?
    ensures ok ==> TakeProof(old(cursor.Rest())) == Some(Taken(proof, cursor.Rest()))
    ensures ok ==> PointsTo(cursor.memory, pointers, proof) && old(cursor.buffer).At?
    ensures ok ==> cursor.End() - |cursor.Rest()| >= PROOF_LENGTH
                   && pointers == PointersTo(cursor.End() - |cursor.Rest()|)
  {
    hide TakeU8, TakeBytes, TakeProof, Slice;
    pointers := ProofPointers(Null, Null, 0, 0);
    proof := Proof(seq(32, _ => 0), seq(64, _ => 0));
    ghost var s := cursor.Rest();
    var typeAndFlags, publicKey, merklePathLength, signature;
    ok, typeAndFlags := cursor.ReadU8();
    if !ok {
      PartsRead(s, None, None, None, None);
      return;
    }
    ghost var t1 := Some(Taken(typeAndFlags, cursor.Rest()));
    ok, publicKey := cursor.ReadSubBuffer(32);
    assert ok ==> publicKey == At(cursor.End() - |t1.value.rest|);
    if !ok {
      TooShort(32, t1.value.rest);
      PartsRead(s, t1, None, None, None);
      return;
    }
    ghost var t2 := Some(Taken(Slice(cursor.memory, publicKey, 32), cursor.Rest()));
    ok, merklePathLength := cursor.ReadU8();
    if !ok {
      PartsRead(s, t1, t2, None, None);
      return;
    }
    ghost var t3 := Some(Taken(merklePathLength, cursor.Rest()));
    ok, signature := cursor.ReadSubBuffer(64);
    assert ok ==> signature == At(cursor.End() - |t3.value.rest|);
    if !ok {
      TooShort(64, t3.value.rest);
      PartsRead(s, t1, t2, t3, None);
      return;
    }
    ghost var t4 := Some(Taken(Slice(cursor.memory, signature, 64), cursor.Rest()));
    PartsRead(s, t1, t2, t3, t4);
    if typeAndFlags != 0 || merklePathLength != 0 {
      return false, pointers, proof;
    }
    pointers := ProofPointers(publicKey, signature, typeAndFlags, merklePathLength);
    proof := Proof(t2.value.value, t4.value.value);
  }

  method IsEmptyDefaultSignatureProof(memory: array<u8>, pointers: ProofPointers, ghost proof: Proof)
    returns (empty: bool)
    requires PointsTo(memory, pointers, proof)
    ensures empty <==> pointers.typeAndFlags == 0 && pointers.merklePathLength == 0 && IsEmptyDefault(proof)
  {
    if pointers.typeAndFlags != 0 || pointers.merklePathLength != 0 {
      return false;
    }
    var i := 0;
    while i < 32
      invariant i <= 32 && AllZero(proof.publicKey[..i])
    {
      assert proof.publicKey[i] == Slice(memory, pointers.publicKey, 32)[i];
      if memory[pointers.publicKey.offset + i] != 0 {
        return false;
      }
      i := i + 1;
    }
    i := 0;
    while i < 64
      invariant i <= 64 && AllZero(proof.signature[..i])
    {
      assert proof.signature[i] == Slice(memory, pointers.signature, 64)[i];
      if memory[pointers.signature.offset + i] != 0 {
        return false;
      }
      i := i + 1;
    }
    assert proof.publicKey[..32] == proof.publicKey && proof.signature[..64] == proof.signature;
    return true;
  }
}
